/**
 The dependency graph used to order fixed-endpoint materialisation
 (crates/ferrum2-config/src/dependency.rs).
 */
module Dependency {
  import opened Prelude
  import opened Orders
  import opened Digraph
  import opened Renaming
  import Kahn
  import CycleSearch

  type U32 = x: nat | x < 0x1_0000_0000

  datatype Node =
    | SystemResolver
    | DnsServer(index: U32)
    | Outbound(index: U32)
    | Selector(index: U32)
    | Chain(index: U32)
    | RuleSet(index: U32)

  /** Where an edge was declared; each source names the resource that owns it. */
  datatype Source =
    | DnsServerDomainResolver(server: U32)
    | DnsServerDetour(server: U32)
    | OutboundDomainResolver(outbound: U32)
    | SelectorMember(selector: U32, member: U32)
    | ChainHop(chain: U32, hop: U32)
    | RuleSetDownloadResolver(ruleSet: U32)
    | RuleSetDownloadDetour(ruleSet: U32)
  {
    function Owner(): Node {
      match this
      case DnsServerDomainResolver(s) => DnsServer(s)
      case DnsServerDetour(s) => DnsServer(s)
      case OutboundDomainResolver(o) => Outbound(o)
      case SelectorMember(s, _) => Selector(s)
      case ChainHop(c, _) => Chain(c)
      case RuleSetDownloadResolver(r) => RuleSet(r)
      case RuleSetDownloadDetour(r) => RuleSet(r)
    }
  }

  datatype Edge = Edge(from: Node, to: Node, source: Source)

  datatype GraphError =
    | SystemResolverHasDependency
    | SourceOwnerMismatch(from: Node, owner: Node)
    | Cycle(path: seq<Node>)
    | Inconsistent

  datatype Result<T> = Ok(value: T) | Err(error: GraphError)

  /** The derived order: by kind in declaration order, then by index. */
  function Rank(n: Node): (nat, nat) {
    match n
    case SystemResolver => (0, 0)
    case DnsServer(i) => (1, i)
    case Outbound(i) => (2, i)
    case Selector(i) => (3, i)
    case Chain(i) => (4, i)
    case RuleSet(i) => (5, i)
  }

  predicate NodeLe(a: Node, b: Node) {
    PairLe(Rank(a), Rank(b))
  }

  lemma NodeOrder()
    ensures TotalOrder(NodeLe)
  {
    forall a, b | NodeLe(a, b) && NodeLe(b, a) ensures a == b {
      assert Rank(a) == Rank(b);
    }
  }

  /** Nodes are ordered by kind, the system resolver first, and within a kind by index. */
  lemma OrderedByKind(i: U32, j: U32)
    ensures forall n :: NodeLe(SystemResolver, n) && (NodeLe(n, SystemResolver) ==> n == SystemResolver)
    ensures NodeLe(DnsServer(i), Outbound(j)) && !NodeLe(Outbound(j), DnsServer(i))
    ensures NodeLe(Outbound(i), Selector(j)) && !NodeLe(Selector(j), Outbound(i))
    ensures NodeLe(Selector(i), Chain(j)) && !NodeLe(Chain(j), Selector(i))
    ensures NodeLe(Chain(i), RuleSet(j)) && !NodeLe(RuleSet(j), Chain(i))
    ensures NodeLe(DnsServer(i), DnsServer(j)) <==> i <= j
    ensures NodeLe(Outbound(i), Outbound(j)) <==> i <= j
    ensures NodeLe(Selector(i), Selector(j)) <==> i <= j
    ensures NodeLe(Chain(i), Chain(j)) <==> i <= j
    ensures NodeLe(RuleSet(i), RuleSet(j)) <==> i <= j
  {
  }

  /** The sources that can declare a dependency of a node. */
  predicate Declares(s: Source, n: Node) {
    match n
    case SystemResolver => false
    case DnsServer(i) => s == DnsServerDomainResolver(i) || s == DnsServerDetour(i)
    case Outbound(i) => s == OutboundDomainResolver(i)
    case Selector(i) => s.SelectorMember? && s.selector == i
    case Chain(i) => s.ChainHop? && s.chain == i
    case RuleSet(i) => s == RuleSetDownloadResolver(i) || s == RuleSetDownloadDetour(i)
  }

  lemma OwnerDeclares(s: Source, n: Node)
    ensures s.Owner() == n <==> Declares(s, n)
  {
  }

  ghost function Pairs(edges: seq<Edge>): set<(Node, Node)> {
    set e | e in edges :: (e.from, e.to)
  }

  ghost predicate WellBuilt(nodes: seq<Node>, edges: seq<Edge>) {
    && Distinct(nodes) && Distinct(edges)
    && forall e :: e in edges ==>
         e.from in nodes && e.to in nodes && e.from != SystemResolver && e.source.Owner() == e.from
  }

  /** What a graph's nodes and edges alone say about its order or its cycle. */
  ghost predicate IsResult(nodes: seq<Node>, edges: seq<Edge>, r: Result<seq<Node>>) {
    && TotalOrder(NodeLe)
    && Closed(Elements(nodes), Pairs(edges))
    && exists o :: IsOutcome(Elements(nodes), Pairs(edges), NodeLe, o) && r == AsResult(o)
  }

  function AsResult(o: Outcome<Node>): Result<seq<Node>> {
    match o
    case Ordered(order) => Ok(order)
    case Cyclic(path) => Err(Cycle(path))
  }

  /** Every edge as a pair of positions in the sorted node list, ascending and without repetition. */
  method IndexEdges(sorted: seq<Node>, edges: seq<Edge>) returns (forward: seq<(nat, nat)>)
    requires TotalOrder(NodeLe) && StrictlySorted(sorted, NodeLe)
    requires forall e :: e in edges ==> e.from in sorted && e.to in sorted
    ensures StrictlySorted(forward, PairLe)
    ensures IsIndexed(sorted, edges, forward)
  {
    forward := [];
    var k := 0;
    while k < |edges|
      invariant 0 <= k <= |edges|
      invariant IsIndexed(sorted, edges[..k], forward)
    {
      var edge := edges[k];
      var from := BinarySearch(sorted, edge.from, NodeLe);
      var to := BinarySearch(sorted, edge.to, NodeLe);
      if from.None? || to.None? {
        assert false;
      }
      ghost var before := forward;
      forward := forward + [(from.value, to.value)];
      IndexOneMore(sorted, edges, k, before, from.value, to.value);
      k := k + 1;
    }
    assert edges[..k] == edges;
    NatOrders();
    SortSorts(forward, PairLe);
    SortKeepsElements(forward, PairLe);
    DedupSorted(Sort(forward, PairLe), PairLe);
    forward := Dedup(Sort(forward, PairLe));
  }

  ghost predicate IsIndexed(sorted: seq<Node>, edges: seq<Edge>, forward: seq<(nat, nat)>) {
    && (forall e :: e in forward ==> e.0 < |sorted| && e.1 < |sorted| && HasEdge(edges, sorted[e.0], sorted[e.1]))
    && (forall i: nat, j: nat :: i < |sorted| && j < |sorted| && HasEdge(edges, sorted[i], sorted[j]) ==>
          (i, j) in forward)
  }

  ghost predicate HasEdge(edges: seq<Edge>, from: Node, to: Node) {
    exists e :: e in edges && e.from == from && e.to == to
  }

  lemma IndexOneMore(sorted: seq<Node>, edges: seq<Edge>, k: nat, before: seq<(nat, nat)>, from: nat, to: nat)
    requires StrictlySorted(sorted, NodeLe) && k < |edges| && IsIndexed(sorted, edges[..k], before)
    requires from < |sorted| && to < |sorted| && sorted[from] == edges[k].from && sorted[to] == edges[k].to
    ensures IsIndexed(sorted, edges[..k + 1], before + [(from, to)])
  {
    HasEdgeGrows(edges, k);
    var forward := before + [(from, to)];
    assert forward[|before|] == (from, to);
    forall e | e in forward
      ensures e.0 < |sorted| && e.1 < |sorted| && HasEdge(edges[..k + 1], sorted[e.0], sorted[e.1])
    {
      assert e in before || e == (from, to);
    }
    forall i: nat, j: nat | i < |sorted| && j < |sorted| && HasEdge(edges[..k + 1], sorted[i], sorted[j])
      ensures (i, j) in forward
    {
      if HasEdge(edges[..k], sorted[i], sorted[j]) {
        assert (i, j) in before;
      } else {
        assert i == from && j == to;
      }
    }
  }

  lemma HasEdgeGrows(edges: seq<Edge>, k: nat)
    requires k < |edges|
    ensures forall a, b :: HasEdge(edges[..k + 1], a, b) <==>
      (HasEdge(edges[..k], a, b) || (a == edges[k].from && b == edges[k].to))
  {
    assert edges[..k + 1] == edges[..k] + [edges[k]];
  }

  lemma SameGraphByIndex(sorted: seq<Node>, nodes: seq<Node>, edges: seq<Edge>, forward: seq<(nat, nat)>)
    requires TotalOrder(NodeLe) && StrictlySorted(sorted, NodeLe) && Elements(sorted) == Elements(nodes)
    requires WellBuilt(nodes, edges) && IsIndexed(sorted, edges, forward)
    ensures SameGraph(sorted, NodeLe, Elements(forward), Pairs(edges))
  {
    forall a, b ensures (a, b) in Pairs(edges) <==> HasEdge(edges, a, b) {
      if HasEdge(edges, a, b) {
        var e :| e in edges && e.from == a && e.to == b;
        assert (e.from, e.to) in Pairs(edges);
      }
    }
    forall e | e in Pairs(edges) ensures e.0 in Elements(sorted) && e.1 in Elements(sorted) {
      assert e.0 in Elements(nodes) && e.1 in Elements(nodes);
    }
  }

  lemma AllPlaced(n: nat, forward: set<(nat, nat)>, ordered: seq<nat>)
    requires Greedy(Below(n), forward, NatLe, ordered)
    ensures |ordered| == n <==> Stuck(Below(n), ordered) == {}
  {
    GreedyIsTopological(Below(n), forward, NatLe, ordered);
    DistinctCard(ordered);
    BelowCard(n);
    var stuck := Stuck(Below(n), ordered);
    assert Below(n) == Elements(ordered) + stuck;
    assert |Below(n)| == |Elements(ordered)| + |stuck|;
  }

  lemma {:induction false} BelowCard(n: nat)
    ensures |Below(n)| == n
  {
    if n == 0 {
      assert Below(0) == {};
    } else {
      BelowCard(n - 1);
      assert Below(n) == Below(n - 1) + {n - 1} by {
        assert IsIndex(n, n - 1);
        forall i: nat | i < n - 1 ensures i in Below(n) { assert IsIndex(n, i); }
        forall i: nat | i in Below(n) ensures i in Below(n - 1) + {n - 1} { assert i < n - 1 ==> IsIndex(n - 1, i); }
      }
    }
  }

  class DependencyGraph {
    var nodes: seq<Node>
    var edges: seq<Edge>

    ghost predicate Valid()
      reads this
    {
      WellBuilt(nodes, edges)
    }

    constructor ()
      ensures Valid() && nodes == [] && edges == []
    {
      nodes, edges := [], [];
    }

    method TryAddNode(node: Node)
      requires Valid()
      modifies this
      ensures Valid() && edges == old(edges)
      ensures nodes == if node in old(nodes) then old(nodes) else old(nodes) + [node]
    {
      if node in nodes {
        return;
      }
      nodes := nodes + [node];
    }

    method TryAddEdge(from: Node, to: Node, source: Source) returns (r: Result<()>)
      requires Valid()
      modifies this
      ensures Valid()
      ensures r.Ok? <==> Declares(source, from)
      ensures r.Err? ==> nodes == old(nodes) && edges == old(edges)
      ensures r == Ok(()) || r == Err(if from == SystemResolver then SystemResolverHasDependency
                                      else SourceOwnerMismatch(from, source.Owner()))
      ensures r.Ok? ==> Elements(nodes) == Elements(old(nodes)) + {from, to}
      ensures r.Ok? ==> Elements(edges) == Elements(old(edges)) + {Edge(from, to, source)}
    {
      OwnerDeclares(source, from);
      if from == SystemResolver {
        return Err(SystemResolverHasDependency);
      }
      var owner := source.Owner();
      if owner != from {
        return Err(SourceOwnerMismatch(from, owner));
      }
      var edge := Edge(from, to, source);
      if edge in edges {
        return Ok(());
      }
      var fromMissing := from !in nodes;
      var toMissing := to != from && to !in nodes;
      if fromMissing {
        nodes := nodes + [from];
      }
      if toMissing {
        nodes := nodes + [to];
      }
      edges := edges + [edge];
      return Ok(());
    }

    /**
     Dependencies before their users, or the cycle that makes that impossible. The result
     is a function of the node set and the edge pairs: no insertion order shows in it, and
     `Inconsistent` never comes back.
     */
    method TopologicalOrder() returns (r: Result<seq<Node>>)
      requires Valid()
      ensures IsResult(nodes, edges, r)
    {
      NodeOrder();
      NatOrders();
      var sorted := Sort(nodes, NodeLe);
      SortDistinct(nodes, NodeLe);
      SortKeepsElements(nodes, NodeLe);
      assert Elements(sorted) == Elements(nodes);
      var forward := IndexEdges(sorted, edges);
      SameGraphByIndex(sorted, nodes, edges, forward);
      var o;
      ghost var ordered;
      o, ordered := OrderPositions(|sorted|, forward);
      RenameIsOutcome(sorted, NodeLe, Elements(forward), Pairs(edges), ordered);
      match o {
        case Ordered(order) => r := Ok(Rename(sorted, order));
        case Cyclic(path) => r := Err(Cycle(Rename(sorted, path)));
      }
      assert r == AsResult(RenameOutcome(sorted, o));
    }
  }

  /** Kahn's loop, then the cycle search when it could not place every position. */
  method OrderPositions(n: nat, forward: seq<(nat, nat)>) returns (o: Outcome<nat>, ghost ordered: seq<nat>)
    requires TotalOrder(NatLe) && StrictlySorted(forward, PairLe) && Kahn.EdgesBelow(n, forward)
    ensures Closed(Below(n), Elements(forward))
    ensures IsExhaustedRun(Below(n), Elements(forward), NatLe, ordered)
    ensures o == OutcomeOf(Below(n), Elements(forward), NatLe, ordered)
  {
    var placed, remaining := Kahn.Run(n, forward);
    ordered := placed;
    AllPlaced(n, Elements(forward), ordered);
    if |placed| == n {
      o := Ordered(placed);
    } else {
      ghost var stuck := Stuck(Below(n), ordered);
      StuckDependsOnStuck(Below(n), Elements(forward), ordered);
      var cycle := CycleSearch.FindCycle(n, forward, remaining, stuck);
      o := Cyclic(cycle);
    }
  }

  /**
   The order exists exactly when the graph has no cycle. It lists every node once, each after
   everything it depends on, and is the least such list; otherwise a simple cycle is reported.
   */
  lemma ResultMeaning(nodes: seq<Node>, edges: seq<Edge>, r: Result<seq<Node>>)
    requires Distinct(nodes) && IsResult(nodes, edges, r)
    ensures r.Ok? <==> forall path :: !IsCycle(Pairs(edges), path)
    ensures r.Ok? ==> multiset(r.value) == multiset(nodes)
    ensures r.Ok? ==> Topological(Elements(nodes), Pairs(edges), r.value)
    ensures r.Ok? ==>
      forall other :: Topological(Elements(nodes), Pairs(edges), other) ==> LexLe(NodeLe, r.value, other)
    ensures r.Err? ==> r.error.Cycle? && IsSimpleCycle(Pairs(edges), r.error.path)
  {
    var o :| IsOutcome(Elements(nodes), Pairs(edges), NodeLe, o) && r == AsResult(o);
    OutcomeMeaning(Elements(nodes), Pairs(edges), NodeLe, o);
    if r.Ok? {
      SameElementsPermute(r.value, nodes);
    }
  }

  lemma SameElementsPermute(a: seq<Node>, b: seq<Node>)
    requires Distinct(a) && Distinct(b) && Elements(a) == Elements(b)
    ensures multiset(a) == multiset(b)
  {
    DistinctMultiset(a);
    DistinctMultiset(b);
    forall x ensures multiset(a)[x] == multiset(b)[x] {
      assert x in a <==> x in Elements(a);
      assert x in b <==> x in Elements(b);
    }
  }

  /** Two graphs with the same nodes and edge pairs give the same result, however they were built. */
  lemma InsertionIndependent(
      nodes1: seq<Node>, edges1: seq<Edge>, r1: Result<seq<Node>>,
      nodes2: seq<Node>, edges2: seq<Edge>, r2: Result<seq<Node>>)
    requires Elements(nodes1) == Elements(nodes2) && Pairs(edges1) == Pairs(edges2)
    requires IsResult(nodes1, edges1, r1) && IsResult(nodes2, edges2, r2)
    ensures r1 == r2
  {
    var o1 :| IsOutcome(Elements(nodes1), Pairs(edges1), NodeLe, o1) && r1 == AsResult(o1);
    var o2 :| IsOutcome(Elements(nodes2), Pairs(edges2), NodeLe, o2) && r2 == AsResult(o2);
    OutcomeUnique(Elements(nodes1), Pairs(edges1), NodeLe, o1, o2);
  }
}

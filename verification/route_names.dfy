/** What compiling an egress graph means in terms of tags and ids alone (crates/ferrum2-core/src/route.rs). */
module RouteNames {
  import opened Prelude
  import opened Orders
  import opened Digraph
  import opened RouteGraph
  import opened RouteSource

  /** The selector with the one tag has the other tag for a member. */
  ghost predicate Offers(src: Source, from: string, to: string) {
    exists d :: d in src.definitions && d.tag == from && to in d.outbounds
  }

  ghost predicate IsTrail(src: Source, trail: seq<string>) {
    trail != [] && forall k :: 0 <= k < |trail| - 1 ==> Offers(src, trail[k], trail[k + 1])
  }

  ghost predicate NamedFromRoots(src: Source, tag: string) {
    exists trail :: IsTrail(src, trail) && trail[0] in src.roots && trail[|trail| - 1] == tag
  }

  ghost predicate Circular(src: Source) {
    exists trail :: IsTrail(src, trail) && |trail| >= 2 && trail[0] == trail[|trail| - 1]
  }

  // What is wrong with a source

  /** The outbound is named itself, or a hop of a plan that is. */
  ghost predicate OutboundUsed(src: Source, o: Endpoint) {
    NamedFromRoots(src, o.tag) || exists p :: p in src.plans && NamedFromRoots(src, p.tag) && o.id in p.hops
  }

  ghost function ReachError(src: Source): Option<CompileError> {
    if exists d :: d in src.definitions && !NamedFromRoots(src, d.tag) then Some(UnreachableSelector)
    else if exists p :: p in src.plans && !NamedFromRoots(src, p.tag) then Some(UnreachablePlan)
    else if exists o :: o in src.outbounds && !OutboundUsed(src, o) then Some(UnreachableOutbound)
    else None
  }

  /** The first of these that applies, in this order, is the error. */
  ghost function Verdict(src: Source): Option<CompileError> {
    if IdentityError(src).Some? then IdentityError(src)
    else if DefinitionsError(src, src.definitions).Some? then DefinitionsError(src, src.definitions)
    else if Circular(src) then Some(SelectorOutbounds)
    else if !RootsOk(src) then Some(ExtraRoot)
    else ReachError(src)
  }

  // What a compiled action stands for

  /** The action gives what the tag names: that outbound alone, the hops of that plan, or that selector. */
  ghost predicate StandsFor(src: Source, c: Compiled, tag: string, a: Action) {
    && tag in EgressTags(src)
    && (forall o :: 0 <= o < |src.outbounds| && src.outbounds[o].tag == tag ==>
          a.Plan? && a.plan < |c.plans| && c.plans[a.plan] == [src.outbounds[o].id])
    && (forall q :: 0 <= q < |src.plans| && src.plans[q].tag == tag ==>
          a.Plan? && a.plan < |c.plans| && c.plans[a.plan] == src.plans[q].hops)
    && (forall s: nat :: s < |src.definitions| && src.definitions[s].tag == tag ==> a == Selector(s))
  }

  ghost predicate AllStandFor(src: Source, c: Compiled, tags: seq<string>, actions: seq<Action>) {
    |actions| == |tags| && forall i :: 0 <= i < |tags| ==> StandsFor(src, c, tags[i], actions[i])
  }

  /** Roots, members and defaults are those the source names. */
  ghost predicate KeepsNames(src: Source, c: Compiled) {
    && AllStandFor(src, c, src.roots, c.roots)
    && |c.graph| == |c.selected| == |src.definitions|
    && forall s :: 0 <= s < |src.definitions| ==>
         && AllStandFor(src, c, src.definitions[s].outbounds, c.graph[s])
         && SelectsDefault(src.definitions[s], c.selected[s])
  }

  /** The compiled form of a source that has neither an identity nor a definition nor a root at fault. */
  ghost predicate IsCompiled(src: Source, c: Compiled) {
    && Compiles(src) && RootsOk(src)
    && c.plans == PlansOf(src) && c.graph == GraphOf(src) && c.roots == Actions(src, src.roots)
  }

  // Tags and actions

  function TagOf(src: Source, a: Action): string
    requires ActionInRange(GraphOf(src), |PlansOf(src)|, a)
  {
    match a
    case Plan(p) => if p < |src.outbounds| then src.outbounds[p].tag else src.plans[p - |src.outbounds|].tag
    case Selector(s) => src.definitions[s].tag
  }

  lemma TagsApart(src: Source)
    requires IdentityError(src).None?
    ensures TagsOk(EgressTags(src))
  {
    IdentityMeaning(src);
    var all, egress, before := AllTags(src), EgressTags(src), EndpointTags(src.inbounds);
    assert all == before + egress;
    forall i, j | 0 <= i < j < |egress| ensures egress[i] != egress[j] {
      assert all[|before| + i] != all[|before| + j];
    }
    forall t | t in egress ensures ValidTag(t) { assert t in all; }
  }

  lemma NamedIsValid(src: Source, tag: string)
    requires IdentityError(src).None? && tag in EgressTags(src)
    ensures ValidTag(tag)
  {
    TagsApart(src);
  }

  /** An action's tag stands in its own place among all tags. */
  lemma TagPlace(src: Source, a: Action) returns (place: nat)
    requires ActionInRange(GraphOf(src), |PlansOf(src)|, a)
    ensures place < |EgressTags(src)| && EgressTags(src)[place] == TagOf(src, a)
    ensures place == match a case Plan(p) => p case Selector(s) => |PlansOf(src)| + s
  {
    place := match a case Plan(p) => p case Selector(s) => |PlansOf(src)| + s;
  }

  lemma SameTag(src: Source, a: Action, b: Action)
    requires IdentityError(src).None?
    requires ActionInRange(GraphOf(src), |PlansOf(src)|, a) && ActionInRange(GraphOf(src), |PlansOf(src)|, b)
    requires TagOf(src, a) == TagOf(src, b)
    ensures a == b
  {
    TagsApart(src);
    var i := TagPlace(src, a);
    var j := TagPlace(src, b);
  }

  lemma ResolvesToItsTag(src: Source, tag: string)
    requires tag in EgressTags(src)
    ensures ActionInRange(GraphOf(src), |PlansOf(src)|, MemberAction(src, tag))
    ensures TagOf(src, MemberAction(src, tag)) == tag && ResolveTag(src, tag) == Some(MemberAction(src, tag))
  {
  }

  lemma TagResolves(src: Source, a: Action)
    requires IdentityError(src).None? && ActionInRange(GraphOf(src), |PlansOf(src)|, a)
    ensures ResolveTag(src, TagOf(src, a)) == Some(a)
  {
    var place := TagPlace(src, a);
    ResolvesToItsTag(src, TagOf(src, a));
    SameTag(src, a, MemberAction(src, TagOf(src, a)));
  }

  lemma ActionStandsFor(src: Source, c: Compiled, tag: string)
    requires IdentityError(src).None? && tag in EgressTags(src) && c.plans == PlansOf(src)
    ensures StandsFor(src, c, tag, MemberAction(src, tag))
  {
    forall o: nat | o < |src.outbounds| && src.outbounds[o].tag == tag ensures MemberAction(src, tag) == Plan(o) {
      TagResolves(src, Plan(o));
    }
    forall q: nat | q < |src.plans| && src.plans[q].tag == tag
      ensures MemberAction(src, tag) == Plan(|src.outbounds| + q)
    {
      TagResolves(src, Plan(|src.outbounds| + q));
    }
    forall s: nat | s < |src.definitions| && src.definitions[s].tag == tag
      ensures MemberAction(src, tag) == Selector(s)
    {
      TagResolves(src, Selector(s));
    }
  }

  // Walks over actions and over tags

  ghost predicate Compiles(src: Source) {
    IdentityError(src).None? && DefinitionsError(src, src.definitions).None?
  }

  lemma LeadsByName(src: Source, a: Action, b: Action)
    requires Compiles(src)
    requires ActionInRange(GraphOf(src), |PlansOf(src)|, a) && ActionInRange(GraphOf(src), |PlansOf(src)|, b)
    ensures Leads(GraphOf(src), a, b) <==> Offers(src, TagOf(src, a), TagOf(src, b))
  {
    if Leads(GraphOf(src), a, b) {
      var d := src.definitions[a.selector];
      var i :| 0 <= i < |d.outbounds| && Actions(src, d.outbounds)[i] == b;
      NoDefinitionError(src, a.selector);
      ResolvesToItsTag(src, d.outbounds[i]);
      assert d in src.definitions && d.tag == TagOf(src, a) && d.outbounds[i] == TagOf(src, b);
    }
    if Offers(src, TagOf(src, a), TagOf(src, b)) {
      var d :| d in src.definitions && d.tag == TagOf(src, a) && TagOf(src, b) in d.outbounds;
      var s: nat :| s < |src.definitions| && src.definitions[s] == d;
      SameTag(src, a, Selector(s));
      var i :| 0 <= i < |d.outbounds| && d.outbounds[i] == TagOf(src, b);
      TagResolves(src, b);
      assert GraphOf(src)[s][i] == b;
    }
  }

  ghost predicate AllInRange(src: Source, route: seq<Action>) {
    forall k :: 0 <= k < |route| ==> ActionInRange(GraphOf(src), |PlansOf(src)|, route[k])
  }

  ghost function Trail(src: Source, route: seq<Action>): (trail: seq<string>)
    requires AllInRange(src, route)
    ensures |trail| == |route| && forall k :: 0 <= k < |route| ==> trail[k] == TagOf(src, route[k])
  {
    seq(|route|, k requires 0 <= k < |route| => TagOf(src, route[k]))
  }

  lemma RouteIsTrail(src: Source, route: seq<Action>)
    requires Compiles(src) && AllInRange(src, route)
    ensures IsRoute(GraphOf(src), route) <==> IsTrail(src, Trail(src, route))
  {
    var trail := Trail(src, route);
    forall k | 0 <= k < |route| - 1
      ensures Leads(GraphOf(src), route[k], route[k + 1]) <==> Offers(src, trail[k], trail[k + 1])
    {
      LeadsByName(src, route[k], route[k + 1]);
    }
    if IsRoute(GraphOf(src), route) {
      forall k | 0 <= k < |trail| - 1 ensures Offers(src, trail[k], trail[k + 1]) {
        assert Leads(GraphOf(src), route[k], route[k + 1]);
      }
    }
    if IsTrail(src, trail) {
      forall k | 0 <= k < |route| - 1 ensures Leads(GraphOf(src), route[k], route[k + 1]) {
        assert Offers(src, trail[k], trail[k + 1]);
      }
    }
  }

  lemma {:induction false} RouteInRange(src: Source, route: seq<Action>, k: nat)
    requires Compiles(src) && IsRoute(GraphOf(src), route) && k < |route|
    requires ActionInRange(GraphOf(src), |PlansOf(src)|, route[0])
    ensures ActionInRange(GraphOf(src), |PlansOf(src)|, route[k])
  {
    if k > 0 {
      RouteInRange(src, route, k - 1);
      GraphInRange(src);
      assert Leads(GraphOf(src), route[k - 1], route[k]);
    }
  }

  /** Every tag a trail meets after its first stands for an action. */
  lemma TrailIsNamed(src: Source, trail: seq<string>, k: nat)
    requires Compiles(src) && IsTrail(src, trail) && 0 < k < |trail|
    ensures trail[k] in EgressTags(src)
  {
    assert Offers(src, trail[k - 1], trail[k - 1 + 1]);
    var d :| d in src.definitions && d.tag == trail[k - 1] && trail[k] in d.outbounds;
    var s: nat :| s < |src.definitions| && src.definitions[s] == d;
    var i :| 0 <= i < |d.outbounds| && d.outbounds[i] == trail[k];
    NoDefinitionError(src, s);
  }

  lemma TrailIsRoute(src: Source, trail: seq<string>) returns (route: seq<Action>)
    requires Compiles(src) && IsTrail(src, trail) && trail[0] in EgressTags(src)
    ensures route == Actions(src, trail) && AllInRange(src, route) && Trail(src, route) == trail
    ensures IsRoute(GraphOf(src), route)
  {
    route := Actions(src, trail);
    forall k | 0 <= k < |trail|
      ensures ActionInRange(GraphOf(src), |PlansOf(src)|, route[k]) && TagOf(src, route[k]) == trail[k]
    {
      if k > 0 { TrailIsNamed(src, trail, k); }
      ResolvesToItsTag(src, trail[k]);
    }
    assert Trail(src, route) == trail;
    RouteIsTrail(src, route);
  }

  lemma ReachableIsNamed(src: Source, route: seq<Action>)
    requires Compiles(src) && RootsOk(src) && IsRoute(GraphOf(src), route) && route[0] in Actions(src, src.roots)
    ensures AllInRange(src, route) && NamedFromRoots(src, TagOf(src, route[|route| - 1]))
  {
    var roots := Actions(src, src.roots);
    var i :| 0 <= i < |roots| && roots[i] == route[0];
    ResolvesToItsTag(src, src.roots[i]);
    RouteTrail(src, route);
    assert Trail(src, route)[0] in src.roots;
  }

  lemma NamedIsReachable(src: Source, trail: seq<string>, a: Action)
    requires Compiles(src) && RootsOk(src) && ActionInRange(GraphOf(src), |PlansOf(src)|, a)
    requires IsTrail(src, trail) && trail[0] in src.roots && trail[|trail| - 1] == TagOf(src, a)
    ensures Reachable(GraphOf(src), Actions(src, src.roots), a)
  {
    var i :| 0 <= i < |src.roots| && src.roots[i] == trail[0];
    ResolvesToItsTag(src, trail[0]);
    var route := TrailIsRoute(src, trail);
    assert route[0] == Actions(src, src.roots)[i];
    assert Trail(src, route)[|route| - 1] == TagOf(src, a);
    SameTag(src, route[|route| - 1], a);
  }

  /** An action is reachable exactly if the roots lead to its tag by name. */
  lemma ReachableByName(src: Source, a: Action)
    requires Compiles(src) && RootsOk(src) && ActionInRange(GraphOf(src), |PlansOf(src)|, a)
    ensures Reachable(GraphOf(src), Actions(src, src.roots), a) <==> NamedFromRoots(src, TagOf(src, a))
  {
    var roots := Actions(src, src.roots);
    if Reachable(GraphOf(src), roots, a) {
      var route :| IsRoute(GraphOf(src), route) && route[0] in roots && route[|route| - 1] == a;
      ReachableIsNamed(src, route);
    }
    if NamedFromRoots(src, TagOf(src, a)) {
      var trail :| IsTrail(src, trail) && trail[0] in src.roots && trail[|trail| - 1] == TagOf(src, a);
      NamedIsReachable(src, trail, a);
    }
  }

  /** A route that comes back to where it began. */
  ghost predicate IsRound(graph: Graph, route: seq<Action>) {
    IsRoute(graph, route) && |route| >= 2 && route[0] == route[|route| - 1]
  }

  lemma CycleIsRound(graph: Graph, path: seq<nat>) returns (route: seq<Action>)
    requires IsCycle(Edges(graph), path)
    ensures IsRound(graph, route) && route[0].Selector? && route[0].selector < |graph|
  {
    route := seq(|path|, k requires 0 <= k < |path| => Selector(path[k]));
    forall k | 0 <= k < |path| - 1 ensures Leads(graph, route[k], route[k + 1]) {
      assert (path[k], path[k + 1]) in Edges(graph);
    }
    assert Leads(graph, route[0], route[1]);
  }

  lemma RoundIsCycle(graph: Graph, route: seq<Action>) returns (path: seq<nat>)
    requires IsRound(graph, route)
    ensures IsCycle(Edges(graph), path)
  {
    forall k | 0 <= k < |route| ensures route[k].Selector? && route[k].selector < |graph| {
      var j := if k < |route| - 1 then k else 0;
      assert Leads(graph, route[j], route[j + 1]) && route[j] == route[k];
    }
    path := seq(|route|, k requires 0 <= k < |route| => route[k].selector);
    forall k | 0 <= k < |path| - 1 ensures (path[k], path[k + 1]) in Edges(graph) {
      assert Leads(graph, route[k], route[k + 1]);
    }
  }

  lemma RoundIsCircular(src: Source, route: seq<Action>)
    requires Compiles(src) && IsRound(GraphOf(src), route)
    requires ActionInRange(GraphOf(src), |PlansOf(src)|, route[0])
    ensures Circular(src)
  {
    RouteTrail(src, route);
    assert IsTrail(src, Trail(src, route));
  }

  lemma AcyclicByName(src: Source)
    requires Compiles(src)
    ensures Acyclic(GraphOf(src)) <==> !Circular(src)
  {
    if path :| IsCycle(Edges(GraphOf(src)), path) {
      var route := CycleIsRound(GraphOf(src), path);
      RoundIsCircular(src, route);
    }
    if trail :| IsTrail(src, trail) && |trail| >= 2 && trail[0] == trail[|trail| - 1] {
      TrailIsNamed(src, trail, |trail| - 1);
      var route := TrailIsRoute(src, trail);
      var path := RoundIsCycle(GraphOf(src), route);
    }
  }

  /** From one tag to the other goes the member of that selector which was loaded. */
  ghost predicate Chosen(src: Source, load: (nat, nat) -> nat, time: nat, from: string, to: string) {
    exists s: nat :: s < |src.definitions| && src.definitions[s].tag == from && MemberAt(src, s, load(time, s), to)
  }

  predicate MemberAt(src: Source, s: nat, member: nat, tag: string)
    requires s < |src.definitions|
  {
    member < |src.definitions[s].outbounds| && src.definitions[s].outbounds[member] == tag
  }

  /** By the loaded members the tag leads to an outbound or a plan with these hops. */
  ghost predicate GivesHops(src: Source, load: (nat, nat) -> nat, tag: string, hops: seq<nat>) {
    exists trail :: IsChosen(src, load, trail) && trail[0] == tag && HasHops(src, trail[|trail| - 1], hops)
  }

  ghost predicate IsChosen(src: Source, load: (nat, nat) -> nat, trail: seq<string>) {
    trail != [] && forall k: nat :: k < |trail| - 1 ==> Chosen(src, load, k, trail[k], trail[k + 1])
  }

  ghost predicate HasHops(src: Source, tag: string, hops: seq<nat>) {
    || (exists o :: o in src.outbounds && o.tag == tag && hops == [o.id])
    || (exists p :: p in src.plans && p.tag == tag && hops == p.hops)
  }

  lemma PlanHasHops(src: Source, p: nat)
    requires p < |PlansOf(src)|
    ensures HasHops(src, TagOf(src, Plan(p)), PlansOf(src)[p])
  {
    if p < |src.outbounds| {
      assert src.outbounds[p] in src.outbounds;
    } else {
      assert src.plans[p - |src.outbounds|] in src.plans;
    }
  }

  lemma AllRouteInRange(src: Source, route: seq<Action>)
    requires Compiles(src) && IsRoute(GraphOf(src), route)
    requires ActionInRange(GraphOf(src), |PlansOf(src)|, route[0])
    ensures AllInRange(src, route)
  {
    forall k: nat | k < |route| ensures ActionInRange(GraphOf(src), |PlansOf(src)|, route[k]) {
      RouteInRange(src, route, k);
    }
  }

  lemma RouteTrail(src: Source, route: seq<Action>)
    requires Compiles(src) && IsRoute(GraphOf(src), route)
    requires ActionInRange(GraphOf(src), |PlansOf(src)|, route[0])
    ensures AllInRange(src, route) && IsTrail(src, Trail(src, route))
  {
    AllRouteInRange(src, route);
    RouteIsTrail(src, route);
  }

  lemma TakenIsChosen(src: Source, load: (nat, nat) -> nat, time: nat, a: Action, b: Action)
    requires Compiles(src) && Takes(GraphOf(src), load, time, a, b)
    ensures ActionInRange(GraphOf(src), |PlansOf(src)|, a) && ActionInRange(GraphOf(src), |PlansOf(src)|, b)
    ensures Chosen(src, load, time, TagOf(src, a), TagOf(src, b))
  {
    var s, member := a.selector, load(time, a.selector);
    NoDefinitionError(src, s);
    ResolvesToItsTag(src, src.definitions[s].outbounds[member]);
    assert MemberAt(src, s, member, TagOf(src, b));
  }

  /** What a tag's action resolves to are the hops its tag leads to by the loaded members. */
  lemma ResolvedGives(src: Source, load: (nat, nat) -> nat, tag: string, p: nat)
    requires Compiles(src) && tag in EgressTags(src) && p < |PlansOf(src)|
    requires ResolvesTo(GraphOf(src), load, MemberAction(src, tag), p)
    ensures GivesHops(src, load, tag, PlansOf(src)[p])
  {
    var route :| FollowsLoads(GraphOf(src), load, route) && route[0] == MemberAction(src, tag)
      && route[|route| - 1] == Plan(p);
    ResolvesToItsTag(src, tag);
    RouteGives(src, load, tag, route, p);
  }

  lemma RouteGives(src: Source, load: (nat, nat) -> nat, tag: string, route: seq<Action>, p: nat)
    requires Compiles(src) && p < |PlansOf(src)| && FollowsLoads(GraphOf(src), load, route)
    requires ActionInRange(GraphOf(src), |PlansOf(src)|, route[0]) && TagOf(src, route[0]) == tag
    requires route[|route| - 1] == Plan(p)
    ensures GivesHops(src, load, tag, PlansOf(src)[p])
  {
    LoadsLead(GraphOf(src), load, route);
    AllRouteInRange(src, route);
    var trail := Trail(src, route);
    forall k: nat | k < |trail| - 1 ensures Chosen(src, load, k, trail[k], trail[k + 1]) {
      assert Takes(GraphOf(src), load, k, route[k], route[k + 1]);
      TakenIsChosen(src, load, k, route[k], route[k + 1]);
    }
    PlanHasHops(src, p);
    assert IsChosen(src, load, trail) && trail[0] == tag;
  }

  // Reachability of each kind, by name

  lemma SelectorsByName(src: Source)
    requires Compiles(src) && RootsOk(src)
    ensures (forall s: nat :: s < |src.definitions| ==> Reachable(GraphOf(src), Actions(src, src.roots), Selector(s)))
      <==> forall d :: d in src.definitions ==> NamedFromRoots(src, d.tag)
  {
    forall s: nat | s < |src.definitions|
      ensures Reachable(GraphOf(src), Actions(src, src.roots), Selector(s))
        <==> NamedFromRoots(src, src.definitions[s].tag)
    {
      ReachableByName(src, Selector(s));
    }
  }

  ghost predicate PlanReached(src: Source, p: nat) {
    Reachable(GraphOf(src), Actions(src, src.roots), Plan(p))
  }

  /** Whether an outbound alone, or a configured plan, is reached. */
  lemma PlanByName(src: Source)
    requires Compiles(src) && RootsOk(src)
    ensures forall o: nat :: o < |src.outbounds| ==>
      (PlanReached(src, o) <==> NamedFromRoots(src, src.outbounds[o].tag))
    ensures forall q: nat :: q < |src.plans| ==>
      (PlanReached(src, |src.outbounds| + q) <==> NamedFromRoots(src, src.plans[q].tag))
  {
    forall o: nat | o < |src.outbounds|
      ensures PlanReached(src, o) <==> NamedFromRoots(src, src.outbounds[o].tag)
    {
      OnePlanByName(src, o);
    }
    forall q: nat | q < |src.plans|
      ensures PlanReached(src, |src.outbounds| + q) <==> NamedFromRoots(src, src.plans[q].tag)
    {
      OnePlanByName(src, |src.outbounds| + q);
    }
  }

  lemma OnePlanByName(src: Source, p: nat)
    requires Compiles(src) && RootsOk(src) && p < |PlansOf(src)|
    ensures PlanReached(src, p) <==> NamedFromRoots(src, TagOf(src, Plan(p)))
  {
    ReachableByName(src, Plan(p));
  }

  lemma PlansByName(src: Source)
    requires Compiles(src) && RootsOk(src)
    ensures (forall p: nat :: |src.outbounds| <= p < |PlansOf(src)| ==> PlanReached(src, p))
      <==> forall p :: p in src.plans ==> NamedFromRoots(src, p.tag)
  {
    PlanByName(src);
    if forall p: nat :: |src.outbounds| <= p < |PlansOf(src)| ==> PlanReached(src, p) {
      forall p | p in src.plans ensures NamedFromRoots(src, p.tag) {
        var q: nat :| q < |src.plans| && src.plans[q] == p;
        assert PlanReached(src, |src.outbounds| + q);
      }
    }
    if forall p :: p in src.plans ==> NamedFromRoots(src, p.tag) {
      forall p: nat | |src.outbounds| <= p < |PlansOf(src)| ensures PlanReached(src, p) {
        var q := p - |src.outbounds|;
        assert src.plans[q] in src.plans && |src.outbounds| + q == p;
      }
    }
  }

  /** Some plan that is reached goes through the outbound. */
  ghost predicate OutboundReached(src: Source, id: nat) {
    exists p: nat :: p < |PlansOf(src)| && PlanReached(src, p) && id in PlansOf(src)[p]
  }

  lemma ReachedIsUsed(src: Source, o: nat, p: nat)
    requires Compiles(src) && RootsOk(src) && o < |src.outbounds| && p < |PlansOf(src)|
    requires PlanReached(src, p) && src.outbounds[o].id in PlansOf(src)[p]
    ensures OutboundUsed(src, src.outbounds[o])
  {
    OnePlanByName(src, p);
    NamedIsUsed(src, o, p);
  }

  lemma NamedIsUsed(src: Source, o: nat, p: nat)
    requires IdentityError(src).None? && o < |src.outbounds| && p < |PlansOf(src)|
    requires NamedFromRoots(src, TagOf(src, Plan(p))) && src.outbounds[o].id in PlansOf(src)[p]
    ensures OutboundUsed(src, src.outbounds[o])
  {
    ThroughPlan(src, o, p);
    if p < |src.outbounds| {
      UsedByName(src, src.outbounds[o]);
    } else {
      UsedByPlan(src, src.outbounds[o], src.plans[p - |src.outbounds|]);
    }
  }

  lemma UsedByName(src: Source, o: Endpoint)
    requires NamedFromRoots(src, o.tag)
    ensures OutboundUsed(src, o)
  {
  }

  lemma UsedByPlan(src: Source, o: Endpoint, plan: TaggedPlan)
    requires plan in src.plans && NamedFromRoots(src, plan.tag) && o.id in plan.hops
    ensures OutboundUsed(src, o)
  {
  }

  /** An outbound in a plan is the whole of that plan or one of its configured hops. */
  lemma ThroughPlan(src: Source, o: nat, p: nat)
    requires IdentityError(src).None? && o < |src.outbounds| && p < |PlansOf(src)|
    requires src.outbounds[o].id in PlansOf(src)[p]
    ensures p < |src.outbounds| ==> p == o
    ensures p >= |src.outbounds| ==>
      var q := p - |src.outbounds|; src.plans[q] in src.plans && src.outbounds[o].id in src.plans[q].hops
  {
    if p < |src.outbounds| {
      IdsDistinct(src, o, p);
    }
  }

  lemma UsedIsReached(src: Source, o: nat)
    requires Compiles(src) && RootsOk(src) && o < |src.outbounds| && OutboundUsed(src, src.outbounds[o])
    ensures OutboundReached(src, src.outbounds[o].id)
  {
    var p := UsedThrough(src, o);
    OnePlanByName(src, p);
  }

  lemma UsedThrough(src: Source, o: nat) returns (p: nat)
    requires o < |src.outbounds| && OutboundUsed(src, src.outbounds[o])
    ensures p < |PlansOf(src)| && src.outbounds[o].id in PlansOf(src)[p]
    ensures NamedFromRoots(src, TagOf(src, Plan(p)))
  {
    if NamedFromRoots(src, src.outbounds[o].tag) {
      p := o;
    } else {
      var plan :| plan in src.plans && NamedFromRoots(src, plan.tag) && src.outbounds[o].id in plan.hops;
      var q: nat :| q < |src.plans| && src.plans[q] == plan;
      p := |src.outbounds| + q;
    }
  }

  lemma OutboundByName(src: Source, o: nat)
    requires Compiles(src) && RootsOk(src) && o < |src.outbounds|
    ensures OutboundReached(src, src.outbounds[o].id) <==> OutboundUsed(src, src.outbounds[o])
  {
    var id := src.outbounds[o].id;
    if p: nat :| p < |PlansOf(src)| && PlanReached(src, p) && id in PlansOf(src)[p] {
      ReachedIsUsed(src, o, p);
    }
    if OutboundUsed(src, src.outbounds[o]) {
      UsedIsReached(src, o);
    }
  }

  /** What compilation produces keeps every name. */
  lemma CompiledKeepsNames(src: Source, c: Compiled)
    requires IsCompiled(src, c)
    requires |c.selected| == |src.definitions|
    requires forall s :: 0 <= s < |src.definitions| ==> SelectsDefault(src.definitions[s], c.selected[s])
    ensures KeepsNames(src, c)
  {
    forall i | 0 <= i < |src.roots| ensures StandsFor(src, c, src.roots[i], c.roots[i]) {
      ActionStandsFor(src, c, src.roots[i]);
    }
    forall s | 0 <= s < |src.definitions| ensures AllStandFor(src, c, src.definitions[s].outbounds, c.graph[s]) {
      var tags := src.definitions[s].outbounds;
      NoDefinitionError(src, s);
      forall i | 0 <= i < |tags| ensures StandsFor(src, c, tags[i], c.graph[s][i]) {
        ActionStandsFor(src, c, tags[i]);
      }
    }
  }
}

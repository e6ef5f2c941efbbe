/** Compilation of an egress graph (crates/ferrum2-core/src/route.rs). */
module Routes {
  import opened Prelude
  import opened Orders
  import opened RouteGraph
  import opened RouteSource
  import opened RouteNames
  import Selectors

  /** The identity checks, role by role. */
  method ValidateIdentities(src: Source) returns (error: Option<CompileError>)
    ensures error == IdentityError(src)
  {
    var inboundTags, outboundTags := EndpointTags(src.inbounds), EndpointTags(src.outbounds);
    EndpointsMeaning([], src.inbounds);
    EndpointsMeaning(inboundTags, src.outbounds);
    AdmittedMeaning([], inboundTags);
    assert [] + inboundTags == inboundTags;
    if !(1 <= |src.inbounds| <= MAX_EGRESS_IDENTITIES)
       || exists i :: 0 <= i < |src.inbounds| && !EndpointOk([], src.inbounds, i) {
      return Some(Inbounds);
    }
    AdmittedMeaning(inboundTags, outboundTags);
    if !(1 <= |src.outbounds| <= MAX_EGRESS_IDENTITIES)
       || exists i :: 0 <= i < |src.outbounds| && !EndpointOk(inboundTags, src.outbounds, i) {
      return Some(Outbounds);
    }
    if |src.plans| > MAX_SELECTORS {
      return Some(Plans);
    }
    error := ValidatePlans(src);
    if error.Some? {
      return;
    }
    if |src.definitions| > MAX_SELECTORS {
      return Some(Selectors);
    }
    assert TagsUpTo(src, |src.plans|) == TakenBySelectors(src);
    AdmittedMeaning(TakenBySelectors(src), SelectorTags(src.definitions));
    if exists i :: 0 <= i < |src.definitions| && !NewTag(TakenBySelectors(src), SelectorTags(src.definitions), i) {
      return Some(SelectorTag);
    }
  }

  method ValidatePlans(src: Source) returns (error: Option<CompileError>)
    requires TagsOk(TagsUpTo(src, 0))
    ensures error ==
      if SomePlanTagFails(src) then Some(PlanTag)
      else if !PlansFit(src, |src.plans|) then Some(PlanHops)
      else None
  {
    var taken := EndpointTags(src.inbounds) + EndpointTags(src.outbounds);
    for p := 0 to |src.plans|
      invariant PlansFit(src, p)
    {
      var hops := src.plans[p].hops;
      NextTag(src, p);
      if !NewTag(taken, PlanTags(src.plans), p) {
        return Some(PlanTag);
      }
      if !(2 <= |hops| <= 8)
         || exists h :: 0 <= h < |hops| && (hops[h] !in Ids(src.outbounds) || hops[h] in hops[..h]) {
        HopsDecide(src, p);
        return Some(PlanHops);
      }
    }
    AllPlansFit(src);
    error := None;
  }

  /** The first tags are all different and can be named. */
  ghost predicate TagsFit(src: Source, tags: seq<string>, i: nat)
    requires i <= |tags|
  {
    Distinct(tags[..i]) && forall t :: t in tags[..i] ==> t in EgressTags(src)
  }

  lemma NextTagFits(src: Source, tags: seq<string>, i: nat)
    requires IdentityError(src).None? && i < |tags| && TagsFit(src, tags, i)
    ensures TagsFit(src, tags, i + 1) <==>
      ValidTag(tags[i]) && tags[i] !in tags[..i] && ResolveTag(src, tags[i]).Some?
    ensures !TagsFit(src, tags, i + 1) ==> !(Distinct(tags) && forall t :: t in tags ==> t in EgressTags(src))
  {
    assert tags[..i + 1] == tags[..i] + [tags[i]];
    ResolvesNamed(src, tags[i]);
    if tags[i] in EgressTags(src) { NamedIsValid(src, tags[i]); }
    if tags[i] in tags[..i] {
      var j :| 0 <= j < i && tags[j] == tags[i];
      assert tags[..i + 1][j] == tags[..i + 1][i];
    }
  }

  /** The members' actions, if their tags fit. */
  method CompileMembers(src: Source, d: Definition) returns (r: Result<seq<Action>>)
    requires IdentityError(src).None?
    ensures r == if MembersFit(src, d) then Ok(Actions(src, d.outbounds)) else Err(SelectorOutbounds)
  {
    if !(1 <= |d.outbounds| <= MAX_SELECTOR_MEMBERS) {
      return Err(SelectorOutbounds);
    }
    var members: seq<Action> := [];
    for i := 0 to |d.outbounds|
      invariant members == Actions(src, d.outbounds)[..i]
      invariant TagsFit(src, d.outbounds, i)
    {
      var tag := d.outbounds[i];
      NextTagFits(src, d.outbounds, i);
      if !ValidTag(tag) || tag in d.outbounds[..i] {
        return Err(SelectorOutbounds);
      }
      var action := ResolveTag(src, tag);
      if action.None? {
        return Err(SelectorOutbounds);
      }
      members := members + [action.value];
    }
    assert d.outbounds[..|d.outbounds|] == d.outbounds;
    assert Actions(src, d.outbounds)[..|d.outbounds|] == Actions(src, d.outbounds);
    return Ok(members);
  }

  /** One definition: its members' actions and default, or its error. */
  method CompileDefinition(src: Source, d: Definition) returns (r: Result<(seq<Action>, nat)>)
    requires IdentityError(src).None?
    ensures DefinitionError(src, d).Some? ==> r == Err(DefinitionError(src, d).value)
    ensures DefinitionError(src, d).None? ==> r.Ok? && r.value.0 == Actions(src, d.outbounds)
    ensures r.Ok? ==> SelectsDefault(d, r.value.1)
  {
    var members := CompileMembers(src, d);
    if members.Err? {
      return Err(members.error);
    }
    if DefaultFits(d) { NamedIsValid(src, d.defaultTag.value); }
    if d.defaultTag.None? || !ValidTag(d.defaultTag.value) {
      return Err(SelectorDefault);
    }
    var default := Selectors.FirstTag(d.outbounds, d.defaultTag.value);
    if default.None? {
      return Err(SelectorDefault);
    }
    return Ok((members.value, default.value));
  }

  /** What the first definitions compile to. */
  ghost predicate CompiledUpTo(src: Source, graph: Graph, selected: seq<nat>, i: nat)
    requires i <= |src.definitions|
  {
    && graph == GraphOf(src)[..i] && |selected| == i
    && forall j :: 0 <= j < i ==>
         DefinitionError(src, src.definitions[j]).None? && SelectsDefault(src.definitions[j], selected[j])
  }

  lemma CompiledNext(src: Source, graph: Graph, selected: seq<nat>, i: nat, members: seq<Action>, default: nat)
    requires i < |src.definitions| && CompiledUpTo(src, graph, selected, i)
    requires DefinitionError(src, src.definitions[i]).None? && SelectsDefault(src.definitions[i], default)
    requires members == Actions(src, src.definitions[i].outbounds)
    ensures CompiledUpTo(src, graph + [members], selected + [default], i + 1)
  {
  }

  method CompileDefinitions(src: Source) returns (r: Result<(Graph, seq<nat>)>)
    requires IdentityError(src).None?
    ensures DefinitionsError(src, src.definitions).Some? ==> r == Err(DefinitionsError(src, src.definitions).value)
    ensures DefinitionsError(src, src.definitions).None? ==> r.Ok? && r.value.0 == GraphOf(src)
    ensures r.Ok? ==>
      && |r.value.1| == |src.definitions|
      && forall i :: 0 <= i < |src.definitions| ==>
           SelectsDefault(src.definitions[i], r.value.1[i])
  {
    var graph: Graph := [];
    var selected: seq<nat> := [];
    for i := 0 to |src.definitions|
      invariant CompiledUpTo(src, graph, selected, i)
    {
      DefinitionsErrorFirst(src, src.definitions, i);
      var one := CompileDefinition(src, src.definitions[i]);
      if one.Err? {
        return Err(one.error);
      }
      CompiledNext(src, graph, selected, i, one.value.0, one.value.1);
      graph := graph + [one.value.0];
      selected := selected + [one.value.1];
    }
    DefinitionsErrorFirst(src, src.definitions, |src.definitions|);
    return Ok((graph, selected));
  }

  method CompileRoots(src: Source) returns (r: Result<seq<Action>>)
    requires IdentityError(src).None?
    ensures r == if RootsOk(src) then Ok(Actions(src, src.roots)) else Err(ExtraRoot)
  {
    TagsApart(src);
    var actions: seq<Action> := [];
    for i := 0 to |src.roots|
      invariant actions == Actions(src, src.roots)[..i]
      invariant forall j :: 0 <= j < i ==> src.roots[j] in EgressTags(src)
    {
      var action := ResolveTag(src, src.roots[i]);
      ResolvesNamed(src, src.roots[i]);
      if !ValidTag(src.roots[i]) || action.None? {
        return Err(ExtraRoot);
      }
      actions := actions + [action.value];
    }
    assert Actions(src, src.roots)[..|src.roots|] == Actions(src, src.roots);
    return Ok(actions);
  }

  /** Which outbounds are reached given the plans that are. */
  method MarkOutbounds(src: Source, reached: array<bool>) returns (outbounds: array<bool>)
    requires IdentityError(src).None? && reached.Length == |PlansOf(src)|
    ensures outbounds.Length == |src.outbounds|
    ensures forall o :: 0 <= o < |src.outbounds| ==>
      (outbounds[o] <==> GoesThrough(PlansOf(src), reached[..], src.outbounds[o].id))
  {
    outbounds := new bool[|src.outbounds|](_ => false);
    var plans := PlansOf(src);
    for p := 0 to |plans|
      invariant forall o :: 0 <= o < |src.outbounds| ==>
        (outbounds[o] <==> GoesThrough(plans[..p], reached[..p], src.outbounds[o].id))
    {
      ghost var was := outbounds[..];
      if reached[p] {
        MarkHops(src, p, outbounds);
      }
      forall o | 0 <= o < |src.outbounds|
        ensures outbounds[o] <==> GoesThrough(plans[..p + 1], reached[..p + 1], src.outbounds[o].id)
      {
        assert was[o] <==> GoesThrough(plans[..p], reached[..p], src.outbounds[o].id);
        OnePlanMore(plans, reached[..], p, src.outbounds[o].id);
      }
    }
    assert plans[..|plans|] == plans && reached[..|plans|] == reached[..];
  }

  ghost predicate GoesThrough(plans: seq<seq<nat>>, reached: seq<bool>, id: nat)
    requires |plans| == |reached|
  {
    exists p: nat :: p < |plans| && reached[p] && id in plans[p]
  }

  lemma OnePlanMore(plans: seq<seq<nat>>, reached: seq<bool>, p: nat, id: nat)
    requires p < |plans| == |reached|
    ensures GoesThrough(plans[..p + 1], reached[..p + 1], id) <==>
      GoesThrough(plans[..p], reached[..p], id) || (reached[p] && id in plans[p])
  {
    if GoesThrough(plans[..p], reached[..p], id) {
      var q: nat :| q < p && reached[..p][q] && id in plans[..p][q];
      assert reached[..p + 1][q] && id in plans[..p + 1][q];
    }
    if reached[p] && id in plans[p] {
      assert reached[..p + 1][p] && id in plans[..p + 1][p];
    }
    if GoesThrough(plans[..p + 1], reached[..p + 1], id) {
      var q: nat :| q < p + 1 && reached[..p + 1][q] && id in plans[..p + 1][q];
      assert q < p ==> reached[..p][q] && id in plans[..p][q];
    }
  }

  method MarkHops(src: Source, p: nat, outbounds: array<bool>)
    requires IdentityError(src).None? && p < |PlansOf(src)| && outbounds.Length == |src.outbounds|
    modifies outbounds
    ensures forall o :: 0 <= o < |src.outbounds| ==>
      (outbounds[o] <==> old(outbounds[o]) || src.outbounds[o].id in PlansOf(src)[p])
  {
    var hops := PlansOf(src)[p];
    for h := 0 to |hops|
      invariant forall o :: 0 <= o < |src.outbounds| ==>
        (outbounds[o] <==> old(outbounds[o]) || src.outbounds[o].id in hops[..h])
    {
      assert hops[h] in hops;
      PlanHopsKnown(src, p, hops[h]);
      var index := PositionOfId(src, hops[h]);
      outbounds[index] := true;
      forall o | 0 <= o < |src.outbounds|
        ensures src.outbounds[o].id in hops[..h + 1] <==> src.outbounds[o].id in hops[..h] || o == index
      {
        assert hops[..h + 1] == hops[..h] + [hops[h]];
        if src.outbounds[o].id == hops[h] {
          IdsDistinct(src, o, index);
        }
      }
    }
    assert hops[..|hops|] == hops;
  }

  method PositionOfId(src: Source, id: nat) returns (index: nat)
    requires id in Ids(src.outbounds)
    ensures index < |src.outbounds| && src.outbounds[index].id == id
  {
    index := 0;
    while src.outbounds[index].id != id
      invariant index < |src.outbounds| && forall i :: 0 <= i < index ==> src.outbounds[i].id != id
      decreases |src.outbounds| - index
    {
      assert exists i :: index < i < |src.outbounds| && src.outbounds[i].id == id by {
        var i :| 0 <= i < |src.outbounds| && Ids(src.outbounds)[i] == id;
      }
      index := index + 1;
    }
  }

  method AllTrue(a: array<bool>, from: nat) returns (r: bool)
    requires from <= a.Length
    ensures r <==> forall i :: from <= i < a.Length ==> a[i]
  {
    for i := from to a.Length
      invariant forall j :: from <= j < i ==> a[j]
    {
      if !a[i] {
        return false;
      }
    }
    return true;
  }

  lemma ReachedMeansReachable(src: Source, plans: seq<bool>, selectors: seq<bool>)
    requires Compiles(src) && RootsOk(src)
    requires |plans| == |PlansOf(src)| && |selectors| == |src.definitions|
    requires forall a :: Reached(plans, selectors, a) <==> Reachable(GraphOf(src), Actions(src, src.roots), a)
    ensures (forall s :: 0 <= s < |selectors| ==> selectors[s])
      <==> forall d :: d in src.definitions ==> NamedFromRoots(src, d.tag)
    ensures (forall p :: |src.outbounds| <= p < |plans| ==> plans[p])
      <==> forall p :: p in src.plans ==> NamedFromRoots(src, p.tag)
    ensures forall p: nat :: p < |plans| ==> (plans[p] <==> PlanReached(src, p))
  {
    forall s: nat | s < |selectors|
      ensures selectors[s] <==> Reachable(GraphOf(src), Actions(src, src.roots), Selector(s))
    {
      assert Reached(plans, selectors, Selector(s)) == selectors[s];
    }
    forall p: nat | p < |plans| ensures plans[p] <==> PlanReached(src, p) {
      assert Reached(plans, selectors, Plan(p)) == plans[p];
    }
    SelectorsByName(src);
    PlansByName(src);
  }

  lemma ThroughMeansUsed(src: Source, plans: seq<bool>)
    requires Compiles(src) && RootsOk(src) && |plans| == |PlansOf(src)|
    requires forall p: nat :: p < |plans| ==> (plans[p] <==> PlanReached(src, p))
    ensures forall o :: 0 <= o < |src.outbounds| ==>
      (GoesThrough(PlansOf(src), plans, src.outbounds[o].id) <==> OutboundUsed(src, src.outbounds[o]))
  {
    forall o | 0 <= o < |src.outbounds|
      ensures GoesThrough(PlansOf(src), plans, src.outbounds[o].id) <==> OutboundUsed(src, src.outbounds[o])
    {
      OutboundByName(src, o);
    }
  }

  /** The three reachability errors, in order. */
  method ValidateReachability(src: Source, graph: Graph, roots: seq<Action>) returns (error: Option<CompileError>)
    requires Compiles(src) && RootsOk(src)
    requires graph == GraphOf(src) && roots == Actions(src, src.roots)
    ensures error == ReachError(src)
  {
    GraphInRange(src);
    RootsInRange(src);
    var plans, selectors := MarkReachable(graph, roots, |PlansOf(src)|);
    ReachedMeansReachable(src, plans[..], selectors[..]);
    var all := AllTrue(selectors, 0);
    if !all {
      return Some(UnreachableSelector);
    }
    all := AllTrue(plans, |src.outbounds|);
    if !all {
      return Some(UnreachablePlan);
    }
    var outbounds := MarkOutbounds(src, plans);
    ThroughMeansUsed(src, plans[..]);
    all := AllTrue(outbounds, 0);
    return if all then None else Some(UnreachableOutbound);
  }

  /** The compiled form is in range and has every selector on one of its members. */
  ghost predicate CanResolve(c: Compiled) {
    && Acyclic(c.graph) && InRange(c.graph, |c.plans|)
    && (forall a :: a in c.roots ==> ActionInRange(c.graph, |c.plans|, a))
    && |c.selected| == |c.graph|
    && (forall i :: 0 <= i < |c.graph| ==> c.selected[i] < |c.graph[i]|)
  }

  method CompileRooted(src: Source, graph: Graph, selected: seq<nat>) returns (r: Result<Compiled>)
    requires Compiles(src) && graph == GraphOf(src) && Acyclic(graph) && |selected| == |src.definitions|
    requires forall i :: 0 <= i < |src.definitions| ==> SelectsDefault(src.definitions[i], selected[i])
    ensures !RootsOk(src) ==> r == Err(ExtraRoot)
    ensures RootsOk(src) && ReachError(src).Some? ==> r == Err(ReachError(src).value)
    ensures RootsOk(src) && ReachError(src).None? ==> r.Ok?
    ensures r.Ok? ==> KeepsNames(src, r.value) && IsCompiled(src, r.value) && CanResolve(r.value)
  {
    var roots := CompileRoots(src);
    if roots.Err? {
      return Err(ExtraRoot);
    }
    var error := ValidateReachability(src, graph, roots.value);
    if error.Some? {
      return Err(error.value);
    }
    GraphInRange(src);
    RootsInRange(src);
    var c := Compiled(PlansOf(src), graph, selected, roots.value);
    CompiledKeepsNames(src, c);
    return Ok(c);
  }

  /** Compilation gives exactly the first applicable error, and otherwise plans and selectors under the names the source
      gives them, which resolution can be trusted on. */
  method Compile(src: Source) returns (r: Result<Compiled>)
    ensures Verdict(src).Some? ==> r == Err(Verdict(src).value)
    ensures Verdict(src).None? ==> r.Ok?
    ensures r.Ok? ==> KeepsNames(src, r.value) && IsCompiled(src, r.value) && CanResolve(r.value)
  {
    var identity := ValidateIdentities(src);
    if identity.Some? {
      return Err(identity.value);
    }
    var definitions := CompileDefinitions(src);
    if definitions.Err? {
      return Err(definitions.error);
    }
    GraphInRange(src);
    AcyclicByName(src);
    var acyclic := ValidateAcyclic(definitions.value.0);
    if !acyclic {
      return Err(SelectorOutbounds);
    }
    r := CompileRooted(src, definitions.value.0, definitions.value.1);
  }

  /** A handle of an accepted graph always gives the hops its root leads to by name through the members selected at each
      load: one outbound or a configured plan, of known outbounds. */
  method Snapshot(src: Source, c: Compiled, root: nat, load: (nat, nat) -> nat) returns (plan: nat, hops: seq<nat>)
    requires IsCompiled(src, c) && CanResolve(c) && root < |c.roots| && LoadsInRange(c.graph, load)
    ensures plan < |c.plans| && hops == c.plans[plan] && Reachable(c.graph, [c.roots[root]], Plan(plan))
    ensures hops != [] && forall h :: h in hops ==> h in Ids(src.outbounds)
    ensures GivesHops(src, load, src.roots[root], hops)
  {
    GraphInRange(src);
    RootsInRange(src);
    plan := Resolve(c.graph, |c.plans|, c.roots[root], load);
    hops := c.plans[plan];
    PlanIsKnown(src, plan);
    ResolvedGives(src, load, src.roots[root], plan);
  }
}

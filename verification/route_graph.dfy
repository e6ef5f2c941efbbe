/**
 The selector graph: acyclicity, reachability and resolution (validate_acyclic and validate_reachability of
 crates/ferrum2-core/src/route.rs, resolve of crates/ferrum2-core/src/selector.rs).
 */
module RouteGraph {
  import opened Orders
  import opened Digraph

  datatype Action = Plan(plan: nat) | Selector(selector: nat)

  /** The members' actions, selector by selector. */
  type Graph = seq<seq<Action>>

  predicate ActionInRange(graph: Graph, plans: nat, a: Action) {
    match a
    case Plan(plan) => plan < plans
    case Selector(selector) => selector < |graph|
  }

  predicate InRange(graph: Graph, plans: nat) {
    forall s, i :: 0 <= s < |graph| && 0 <= i < |graph[s]| ==> ActionInRange(graph, plans, graph[s][i])
  }

  predicate SelectorsInRange(graph: Graph) {
    forall s, i :: 0 <= s < |graph| && 0 <= i < |graph[s]| && graph[s][i].Selector? ==> graph[s][i].selector < |graph|
  }

  ghost function Edges(graph: Graph): set<(nat, nat)> {
    set a: nat, b: nat | a < |graph| && b < |graph| && Selector(b) in graph[a] :: (a, b)
  }

  /** No selector reaches itself. */
  ghost predicate Acyclic(graph: Graph) {
    forall path :: !IsCycle(Edges(graph), path)
  }

  // Depth-first search for a cycle

  /** Mark 1 is the path being walked, mark 2 what was finished, dependencies first. */
  ghost predicate Marked(graph: Graph, marks: seq<nat>, stack: seq<nat>, finished: seq<nat>) {
    && |marks| == |graph|
    && Distinct(stack) && Distinct(finished) && Elements(stack) !! Elements(finished)
    && (forall x :: x in stack || x in finished ==> x < |graph|)
    && (forall i: nat :: i < |graph| ==> marks[i] == if i in stack then 1 else if i in finished then 2 else 0)
    && Walks(Edges(graph), stack)
    && FinishedFirst(graph, finished)
  }

  ghost predicate FinishedFirst(graph: Graph, finished: seq<nat>) {
    forall k, t :: 0 <= k < |finished| && (finished[k], t) in Edges(graph) ==> t in finished[..k]
  }

  ghost predicate ComesFrom(graph: Graph, stack: seq<nat>, selector: nat) {
    stack != [] ==> (stack[|stack| - 1], selector) in Edges(graph)
  }

  lemma StackFits(n: nat, stack: seq<nat>)
    requires Distinct(stack) && forall x :: x in stack ==> x < n
    ensures |stack| <= n
  {
    DistinctCard(stack);
    CardBelow(n, Elements(stack));
  }

  lemma {:induction false} CardBelow(n: nat, s: set<nat>)
    requires forall x :: x in s ==> x < n
    ensures |s| <= n
  {
    if n > 0 {
      CardBelow(n - 1, s - {n - 1});
      assert s <= (s - {n - 1}) + {n - 1};
      assert |s| <= |s - {n - 1}| + 1;
    } else {
      assert s == {};
    }
  }

  lemma Push(graph: Graph, marks: seq<nat>, stack: seq<nat>, finished: seq<nat>, selector: nat)
    requires Marked(graph, marks, stack, finished) && ComesFrom(graph, stack, selector)
    requires selector < |graph| && marks[selector] == 0
    ensures Marked(graph, marks[selector := 1], stack + [selector], finished)
    ensures |stack| < |graph|
  {
    var longer := stack + [selector];
    assert Elements(longer) == Elements(stack) + {selector};
    if stack != [] {
      ExtendWalk(Edges(graph), stack, selector);
    }
    StackFits(|graph|, longer);
  }

  ghost predicate Followed(graph: Graph, selector: nat, finished: seq<nat>, count: nat)
    requires selector < |graph| && count <= |graph[selector]|
  {
    forall i :: 0 <= i < count && graph[selector][i].Selector? ==> graph[selector][i].selector in finished
  }

  lemma Pop(graph: Graph, marks: seq<nat>, stack: seq<nat>, finished: seq<nat>, selector: nat)
    requires Marked(graph, marks, stack + [selector], finished) && selector < |graph|
    requires Followed(graph, selector, finished, |graph[selector]|)
    ensures Marked(graph, marks[selector := 2], stack, finished + [selector])
  {
    var longer := finished + [selector];
    assert (stack + [selector])[|stack|] == selector;
    assert selector in Elements(stack + [selector]);
    assert selector !in finished by { assert selector !in Elements(finished); }
    forall k | 0 <= k < |stack| ensures stack[k] != selector {
      assert (stack + [selector])[k] != (stack + [selector])[|stack|];
    }
    assert Elements(longer) == Elements(finished) + {selector};
    forall x | x in stack ensures x in Elements(stack + [selector]) {}
    assert stack == (stack + [selector])[..|stack|];
    assert Walks(Edges(graph), stack) by {
      forall k | 0 <= k < |stack| - 1 ensures (stack[k], stack[k + 1]) in Edges(graph) {
        assert ((stack + [selector])[k], (stack + [selector])[k + 1]) in Edges(graph);
      }
    }
    forall k, t | 0 <= k < |longer| && (longer[k], t) in Edges(graph) ensures t in longer[..k] {
      if k < |finished| {
        assert longer[..k] == finished[..k];
      } else {
        assert longer[..k] == finished;
        var i :| 0 <= i < |graph[selector]| && graph[selector][i] == Selector(t);
      }
    }
  }

  /** Finishing a selector puts everything it leads to before it; meeting the walked path again is a cycle. */
  method VisitAcyclic(selector: nat, graph: Graph, marks: array<nat>, ghost stack: seq<nat>, ghost finished: seq<nat>)
    returns (ok: bool, ghost after: seq<nat>, ghost cycle: seq<nat>)
    requires SelectorsInRange(graph)
    requires selector < |graph| && marks.Length == |graph|
    requires Marked(graph, marks[..], stack, finished) && ComesFrom(graph, stack, selector)
    modifies marks
    ensures ok ==> Marked(graph, marks[..], stack, after) && Elements(finished) <= Elements(after) && selector in after
    ensures !ok ==> IsCycle(Edges(graph), cycle)
    decreases |graph| - |stack|, 0
  {
    cycle, after := [], finished;
    if marks[selector] == 1 {
      ghost var k := PositionOf(stack, selector);
      ClosesCycle(Edges(graph), stack, k);
      return false, finished, stack[k..] + [selector];
    }
    if marks[selector] == 2 {
      return true, finished, [];
    }
    Push(graph, marks[..], stack, finished, selector);
    ghost var walked := stack + [selector];
    assert marks[..][selector := 1] == marks[..][..selector] + [1] + marks[..][selector + 1..];
    marks[selector] := 1;
    ok, after, cycle := VisitMembers(selector, graph, marks, walked, finished);
    if !ok {
      return;
    }
    Pop(graph, marks[..], stack, after, selector);
    marks[selector] := 2;
    assert (after + [selector])[|after|] == selector;
    after := after + [selector];
  }

  method VisitMembers(selector: nat, graph: Graph, marks: array<nat>, ghost stack: seq<nat>, ghost finished: seq<nat>)
    returns (ok: bool, ghost after: seq<nat>, ghost cycle: seq<nat>)
    requires SelectorsInRange(graph)
    requires stack != [] && stack[|stack| - 1] == selector < |graph| && marks.Length == |graph|
    requires Marked(graph, marks[..], stack, finished)
    modifies marks
    ensures ok ==> Marked(graph, marks[..], stack, after) && Elements(finished) <= Elements(after)
    ensures ok ==> Followed(graph, selector, after, |graph[selector]|)
    ensures !ok ==> IsCycle(Edges(graph), cycle)
    decreases |graph| - |stack|, 1
  {
    after, cycle, ok := finished, [], true;
    var members := graph[selector];
    for i := 0 to |members|
      invariant Marked(graph, marks[..], stack, after) && Elements(finished) <= Elements(after)
      invariant Followed(graph, selector, after, i)
    {
      if members[i].Selector? {
        var next := members[i].selector;
        assert (selector, next) in Edges(graph);
        ghost var before := after;
        ok, after, cycle := VisitAcyclic(next, graph, marks, stack, after);
        if !ok {
          return;
        }
        StillFollowed(graph, selector, before, after, i);
      }
    }
  }

  lemma StillFollowed(graph: Graph, selector: nat, finished: seq<nat>, after: seq<nat>, count: nat)
    requires selector < |graph| && count <= |graph[selector]| && Elements(finished) <= Elements(after)
    requires Followed(graph, selector, finished, count)
    ensures Followed(graph, selector, after, count)
  {
    forall i | 0 <= i < count && graph[selector][i].Selector? ensures graph[selector][i].selector in after {
      assert graph[selector][i].selector in Elements(finished);
    }
  }

  lemma FinishedIsAcyclic(graph: Graph, finished: seq<nat>)
    requires FinishedFirst(graph, finished) && Distinct(finished)
    requires forall x: nat :: x in finished <==> x < |graph|
    ensures Acyclic(graph)
  {
    var nodes := Elements(finished);
    forall path ensures !IsCycle(Edges(graph), path) {
      assert Topological(nodes, Edges(graph), finished);
      TopologicalHasNoCycle(nodes, Edges(graph), finished, path);
    }
  }

  /** Accepts exactly the graphs in which no selector reaches itself. */
  method ValidateAcyclic(graph: Graph) returns (ok: bool)
    requires SelectorsInRange(graph)
    ensures ok <==> Acyclic(graph)
  {
    var marks := new nat[|graph|](_ => 0);
    ghost var finished := [];
    for s := 0 to |graph|
      invariant Marked(graph, marks[..], [], finished)
      invariant forall x: nat :: x < s ==> x in finished
    {
      ghost var before, cycle := finished, [];
      ok, finished, cycle := VisitAcyclic(s, graph, marks, [], finished);
      if !ok {
        return;
      }
      forall x: nat | x < s ensures x in finished { assert x in Elements(before); }
    }
    FinishedIsAcyclic(graph, finished);
    ok := true;
  }

  // What a root reaches

  ghost predicate IsRoute(graph: Graph, route: seq<Action>) {
    && route != []
    && forall k :: 0 <= k < |route| - 1 ==> Leads(graph, route[k], route[k + 1])
  }

  predicate Leads(graph: Graph, a: Action, b: Action) {
    a.Selector? && a.selector < |graph| && b in graph[a.selector]
  }

  ghost predicate Reachable(graph: Graph, roots: seq<Action>, a: Action) {
    exists route :: IsRoute(graph, route) && route[0] in roots && route[|route| - 1] == a
  }

  lemma ReachesFurther(graph: Graph, roots: seq<Action>, a: Action, b: Action)
    requires Reachable(graph, roots, a) && Leads(graph, a, b)
    ensures Reachable(graph, roots, b)
  {
    var route :| IsRoute(graph, route) && route[0] in roots && route[|route| - 1] == a;
    var longer := route + [b];
    forall k | 0 <= k < |longer| - 1 ensures Leads(graph, longer[k], longer[k + 1]) {
      if k < |route| - 1 { assert Leads(graph, route[k], route[k + 1]); }
    }
    assert longer[0] in roots && longer[|longer| - 1] == b;
  }

  lemma RootReachable(graph: Graph, roots: seq<Action>, a: Action)
    requires a in roots
    ensures Reachable(graph, roots, a)
  {
    assert IsRoute(graph, [a]) && [a][0] in roots;
  }

  /** The two boolean tables as one set. */
  ghost predicate Reached(plans: seq<bool>, selectors: seq<bool>, a: Action) {
    match a
    case Plan(plan) => plan < |plans| && plans[plan]
    case Selector(selector) => selector < |selectors| && selectors[selector]
  }

  ghost predicate Sizes(graph: Graph, plans: nat, p: seq<bool>, s: seq<bool>) {
    |p| == plans && |s| == |graph|
  }

  ghost predicate Grown(p: seq<bool>, s: seq<bool>, p1: seq<bool>, s1: seq<bool>) {
    forall a :: Reached(p, s, a) ==> Reached(p1, s1, a)
  }

  ghost predicate OnlyReachable(graph: Graph, roots: seq<Action>, p: seq<bool>, s: seq<bool>) {
    forall a :: Reached(p, s, a) ==> Reachable(graph, roots, a)
  }

  /** Of the selectors reached since `was`, all but one have every member reached. */
  ghost predicate ClosedBut(graph: Graph, was: seq<bool>, p: seq<bool>, s: seq<bool>, open: set<nat>)
    requires |was| == |s| == |graph|
  {
    forall x: nat :: x < |graph| && s[x] && !was[x] && x !in open ==> AllReached(graph, p, s, x)
  }

  ghost predicate AllReached(graph: Graph, p: seq<bool>, s: seq<bool>, x: nat)
    requires x < |graph|
  {
    forall b :: b in graph[x] ==> Reached(p, s, b)
  }

  ghost function Unreached(s: seq<bool>): set<nat> {
    set i: nat | i < |s| && !s[i]
  }

  /** Marks what an action leads to: everything newly marked is reachable and has its members marked. */
  method VisitReachable(
      action: Action, graph: Graph, plans: array<bool>, selectors: array<bool>, ghost roots: seq<Action>)
    requires plans != selectors && Sizes(graph, plans.Length, plans[..], selectors[..])
    requires InRange(graph, plans.Length) && ActionInRange(graph, plans.Length, action)
    requires Reachable(graph, roots, action) && OnlyReachable(graph, roots, plans[..], selectors[..])
    modifies plans, selectors
    ensures OnlyReachable(graph, roots, plans[..], selectors[..])
    ensures Grown(old(plans[..]), old(selectors[..]), plans[..], selectors[..])
    ensures Reached(plans[..], selectors[..], action)
    ensures ClosedBut(graph, old(selectors[..]), plans[..], selectors[..], {})
    decreases Unreached(selectors[..]), 0
  {
    match action {
      case Plan(plan) =>
        plans[plan] := true;
      case Selector(selector) =>
        if !selectors[selector] {
          selectors[selector] := true;
          assert selector in old(Unreached(selectors[..]));
          VisitMembersReachable(selector, graph, plans, selectors, old(selectors[..]), roots);
        }
    }
  }

  method VisitMembersReachable(selector: nat, graph: Graph, plans: array<bool>, selectors: array<bool>,
                               ghost was: seq<bool>, ghost roots: seq<Action>)
    requires plans != selectors && Sizes(graph, plans.Length, plans[..], selectors[..])
    requires InRange(graph, plans.Length) && selector < |graph| && selectors[selector]
    requires Reachable(graph, roots, Selector(selector)) && OnlyReachable(graph, roots, plans[..], selectors[..])
    requires |was| == |graph| && selectors[..] == was[selector := true]
    modifies plans, selectors
    ensures OnlyReachable(graph, roots, plans[..], selectors[..])
    ensures Grown(old(plans[..]), old(selectors[..]), plans[..], selectors[..])
    ensures ClosedBut(graph, was, plans[..], selectors[..], {})
    decreases Unreached(selectors[..]), 1
  {
    var members := graph[selector];
    for i := 0 to |members|
      invariant OnlyReachable(graph, roots, plans[..], selectors[..])
      invariant Grown(old(plans[..]), old(selectors[..]), plans[..], selectors[..])
      invariant ClosedBut(graph, was, plans[..], selectors[..], {selector})
      invariant forall j :: 0 <= j < i ==> Reached(plans[..], selectors[..], members[j])
    {
      assert Leads(graph, Selector(selector), members[i]);
      ReachesFurther(graph, roots, Selector(selector), members[i]);
      assert ActionInRange(graph, plans.Length, graph[selector][i]);
      FewerUnreached(old(plans[..]), old(selectors[..]), plans[..], selectors[..]);
      ghost var p, s := plans[..], selectors[..];
      VisitReachable(members[i], graph, plans, selectors, roots);
      StaysClosed(graph, was, p, s, plans[..], selectors[..], {selector});
    }
    assert AllReached(graph, plans[..], selectors[..], selector);
  }

  lemma FewerUnreached(p: seq<bool>, s: seq<bool>, p1: seq<bool>, s1: seq<bool>)
    requires Grown(p, s, p1, s1) && |s| == |s1|
    ensures Unreached(s1) <= Unreached(s)
  {
    forall i | i in Unreached(s1) ensures i in Unreached(s) {
      assert Reached(p, s, Selector(i)) ==> Reached(p1, s1, Selector(i));
    }
  }

  lemma StaysClosed(
      graph: Graph, was: seq<bool>, p: seq<bool>, s: seq<bool>, p1: seq<bool>, s1: seq<bool>, open: set<nat>)
    requires |was| == |s| == |s1| == |graph| && Grown(p, s, p1, s1)
    requires ClosedBut(graph, was, p, s, open) && ClosedBut(graph, s, p1, s1, {})
    ensures ClosedBut(graph, was, p1, s1, open)
  {
    forall x: nat | x < |graph| && s1[x] && !was[x] && x !in open ensures AllReached(graph, p1, s1, x) {
      if s[x] {
        assert AllReached(graph, p, s, x);
      }
    }
  }

  /** Once every member of what is marked is marked, everything reachable is. */
  lemma {:induction false} ClosedIsAll(graph: Graph, roots: seq<Action>, p: seq<bool>, s: seq<bool>, route: seq<Action>)
    requires |s| == |graph| && (forall x: nat :: x < |graph| && s[x] ==> AllReached(graph, p, s, x))
    requires forall a :: a in roots ==> Reached(p, s, a)
    requires IsRoute(graph, route) && route[0] in roots
    ensures Reached(p, s, route[|route| - 1])
    decreases |route|
  {
    if |route| > 1 {
      var shorter := route[..|route| - 1];
      forall k | 0 <= k < |shorter| - 1 ensures Leads(graph, shorter[k], shorter[k + 1]) {
        assert Leads(graph, route[k], route[k + 1]);
      }
      ClosedIsAll(graph, roots, p, s, shorter);
      assert Leads(graph, route[|route| - 2], route[|route| - 1]);
    }
  }

  lemma MarkedIsReachable(graph: Graph, roots: seq<Action>, none: seq<bool>, p: seq<bool>, s: seq<bool>)
    requires |none| == |s| == |graph| && (forall x :: x in none ==> !x) && ClosedBut(graph, none, p, s, {})
    requires OnlyReachable(graph, roots, p, s) && forall j :: 0 <= j < |roots| ==> Reached(p, s, roots[j])
    ensures forall a :: Reached(p, s, a) <==> Reachable(graph, roots, a)
  {
    forall x: nat | x < |graph| && s[x] ensures AllReached(graph, p, s, x) {
      assert none[x] in none;
    }
    forall a | Reachable(graph, roots, a) ensures Reached(p, s, a) {
      var route :| IsRoute(graph, route) && route[0] in roots && route[|route| - 1] == a;
      ClosedIsAll(graph, roots, p, s, route);
    }
  }

  lemma ReachedSoFar(p: seq<bool>, s: seq<bool>, p1: seq<bool>, s1: seq<bool>, roots: seq<Action>, i: nat)
    requires i < |roots| && Grown(p, s, p1, s1) && Reached(p1, s1, roots[i])
    requires forall j :: 0 <= j < i ==> Reached(p, s, roots[j])
    ensures forall j :: 0 <= j < i + 1 ==> Reached(p1, s1, roots[j])
  {
  }

  /** The tables end up marking exactly what the roots reach. */
  method MarkReachable(graph: Graph, roots: seq<Action>, planCount: nat)
      returns (plans: array<bool>, selectors: array<bool>)
    requires InRange(graph, planCount) && forall a :: a in roots ==> ActionInRange(graph, planCount, a)
    ensures fresh(plans) && fresh(selectors) && plans.Length == planCount && selectors.Length == |graph|
    ensures forall a :: Reached(plans[..], selectors[..], a) <==> Reachable(graph, roots, a)
  {
    selectors := new bool[|graph|](_ => false);
    plans := new bool[planCount](_ => false);
    ghost var none := selectors[..];
    for i := 0 to |roots|
      invariant OnlyReachable(graph, roots, plans[..], selectors[..])
      invariant ClosedBut(graph, none, plans[..], selectors[..], {})
      invariant forall j :: 0 <= j < i ==> Reached(plans[..], selectors[..], roots[j])
    {
      RootReachable(graph, roots, roots[i]);
      ghost var p, s := plans[..], selectors[..];
      VisitReachable(roots[i], graph, plans, selectors, roots);
      StaysClosed(graph, none, p, s, plans[..], selectors[..], {});
      ReachedSoFar(p, s, plans[..], selectors[..], roots, i);
    }
    MarkedIsReachable(graph, roots, none, plans[..], selectors[..]);
  }

  // Resolution under concurrent switching

  ghost predicate SelectorsOnly(graph: Graph, route: seq<Action>) {
    forall k :: 0 <= k < |route| ==> route[k].Selector? && route[k].selector < |graph|
  }

  lemma RepeatIsCycle(graph: Graph, route: seq<Action>, i: nat, j: nat)
    requires IsRoute(graph, route) && SelectorsOnly(graph, route) && i < j < |route| && route[i] == route[j]
    ensures !Acyclic(graph)
  {
    var cycle: seq<nat> := seq(j + 1 - i, k requires 0 <= k < j + 1 - i => route[i + k].selector);
    forall k | 0 <= k < |cycle| - 1 ensures (cycle[k], cycle[k + 1]) in Edges(graph) {
      assert Leads(graph, route[i + k], route[i + k + 1]);
      assert route[i + k + 1] == Selector(cycle[k + 1]);
    }
    assert IsCycle(Edges(graph), cycle);
  }

  /** A route through selectors only repeats none of them, so it is no longer than there are selectors. */
  lemma SelectorRouteIsShort(graph: Graph, route: seq<Action>)
    requires Acyclic(graph) && IsRoute(graph, route) && SelectorsOnly(graph, route)
    ensures |route| <= |graph|
  {
    var walk: seq<nat> := seq(|route|, k requires 0 <= k < |route| => route[k].selector);
    forall i, j | 0 <= i < j < |walk| ensures walk[i] != walk[j] {
      if walk[i] == walk[j] {
        RepeatIsCycle(graph, route, i, j);
      }
    }
    StackFits(|graph|, walk);
  }

  /** The member a load returns: any one in range, at each load anew. */
  ghost predicate LoadsInRange(graph: Graph, load: (nat, nat) -> nat) {
    forall time: nat, s: nat :: s < |graph| ==> load(time, s) < |graph[s]|
  }

  /** The route from an action that takes, at each selector, the member just loaded, down to its first plan. */
  ghost predicate FollowsLoads(graph: Graph, load: (nat, nat) -> nat, route: seq<Action>) {
    && route != []
    && forall k: nat :: k < |route| - 1 ==> Takes(graph, load, k, route[k], route[k + 1])
  }

  ghost predicate Takes(graph: Graph, load: (nat, nat) -> nat, time: nat, a: Action, b: Action) {
    && a.Selector? && a.selector < |graph| && load(time, a.selector) < |graph[a.selector]|
    && b == graph[a.selector][load(time, a.selector)]
  }

  ghost predicate ResolvesTo(graph: Graph, load: (nat, nat) -> nat, start: Action, plan: nat) {
    exists route :: FollowsLoads(graph, load, route) && route[0] == start && route[|route| - 1] == Plan(plan)
  }

  lemma LoadsExtend(graph: Graph, load: (nat, nat) -> nat, route: seq<Action>, next: Action)
    requires FollowsLoads(graph, load, route) && Takes(graph, load, |route| - 1, route[|route| - 1], next)
    ensures FollowsLoads(graph, load, route + [next])
  {
    var longer := route + [next];
    forall k: nat | k < |longer| - 1 ensures Takes(graph, load, k, longer[k], longer[k + 1]) {
      if k < |route| - 1 { assert Takes(graph, load, k, route[k], route[k + 1]); }
    }
  }

  lemma LoadsLead(graph: Graph, load: (nat, nat) -> nat, route: seq<Action>)
    requires FollowsLoads(graph, load, route)
    ensures IsRoute(graph, route)
  {
    forall k | 0 <= k < |route| - 1 ensures Leads(graph, route[k], route[k + 1]) {
      assert Takes(graph, load, k, route[k], route[k + 1]);
    }
  }

  /** On an accepted graph resolution takes the members it loads and ends at a plan the action leads to, whatever they
      are. */
  method Resolve(graph: Graph, plans: nat, start: Action, load: (nat, nat) -> nat) returns (plan: nat)
    requires InRange(graph, plans) && Acyclic(graph) && ActionInRange(graph, plans, start) && LoadsInRange(graph, load)
    ensures plan < plans && ResolvesTo(graph, load, start, plan) && Reachable(graph, [start], Plan(plan))
  {
    var action := start;
    ghost var route := [start];
    for time := 0 to |graph| + 1
      invariant FollowsLoads(graph, load, route) && route[0] == start && |route| == time + 1 && route[time] == action
      invariant forall k :: 0 <= k < time ==> route[k].Selector? && route[k].selector < |graph|
      invariant ActionInRange(graph, plans, action)
    {
      match action {
        case Plan(p) =>
          LoadsLead(graph, load, route);
          return p;
        case Selector(s) =>
          action := graph[s][load(time, s)];
          LoadsExtend(graph, load, route, action);
          route := route + [action];
      }
    }
    LoadsLead(graph, load, route);
    SelectorsBefore(graph, route);
    assert false;
  }

  lemma SelectorsBefore(graph: Graph, route: seq<Action>)
    requires Acyclic(graph) && IsRoute(graph, route)
    requires forall k :: 0 <= k < |route| - 1 ==> route[k].Selector? && route[k].selector < |graph|
    ensures |route| - 1 <= |graph|
  {
    if |route| > 1 {
      var before := route[..|route| - 1];
      forall k | 0 <= k < |before| - 1 ensures Leads(graph, before[k], before[k + 1]) {
        assert Leads(graph, route[k], route[k + 1]);
      }
      SelectorRouteIsShort(graph, before);
    }
  }
}

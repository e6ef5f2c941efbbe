/**
 Dependency order on a finite directed graph, for any totally ordered node type.
 An edge `(x, t)` says that `x` depends on `t`, so `t` has to come first.
 */
module Digraph {
  import opened Orders

  datatype Outcome<T> = Ordered(order: seq<T>) | Cyclic(path: seq<T>)

  /** `x` is not placed yet, but everything it depends on is. */
  ghost predicate Available<T(!new)>(nodes: set<T>, edges: set<(T, T)>, done: seq<T>, x: T) {
    x in nodes && x !in done && forall t :: (x, t) in edges ==> t in done
  }

  /** Every element is the least one available at its turn. */
  ghost predicate Greedy<T(!new)>(nodes: set<T>, edges: set<(T, T)>, le: (T, T) -> bool, order: seq<T>) {
    forall k :: 0 <= k < |order| ==> IsChoice(nodes, edges, le, order[..k], order[k])
  }

  ghost predicate IsChoice<T(!new)>(nodes: set<T>, edges: set<(T, T)>, le: (T, T) -> bool, done: seq<T>, x: T) {
    Available(nodes, edges, done, x) && forall y :: Available(nodes, edges, done, y) ==> le(x, y)
  }

  ghost predicate Exhausted<T(!new)>(nodes: set<T>, edges: set<(T, T)>, done: seq<T>) {
    forall x :: !Available(nodes, edges, done, x)
  }

  /** A permutation of the nodes with every dependency before its user. */
  ghost predicate Topological<T(!new)>(nodes: set<T>, edges: set<(T, T)>, order: seq<T>) {
    && Distinct(order)
    && Elements(order) == nodes
    && forall k, t :: 0 <= k < |order| && (order[k], t) in edges ==> t in order[..k]
  }

  ghost predicate LexLe<T(!new)>(le: (T, T) -> bool, a: seq<T>, b: seq<T>) {
    a == b || exists k :: 0 <= k < |a| && k < |b| && a[..k] == b[..k] && a[k] != b[k] && le(a[k], b[k])
  }

  /** Consecutive elements are joined by edges. */
  ghost predicate Walks<T(!new)>(edges: set<(T, T)>, path: seq<T>) {
    forall k :: 0 <= k < |path| - 1 ==> (path[k], path[k + 1]) in edges
  }

  ghost predicate IsCycle<T(!new)>(edges: set<(T, T)>, path: seq<T>) {
    |path| >= 2 && Walks(edges, path) && path[0] == path[|path| - 1]
  }

  ghost predicate IsSimpleCycle<T(!new)>(edges: set<(T, T)>, path: seq<T>) {
    IsCycle(edges, path) && Distinct(path[1..])
  }

  ghost predicate Closed<T(!new)>(nodes: set<T>, edges: set<(T, T)>) {
    forall e :: e in edges ==> e.0 in nodes && e.1 in nodes
  }

  lemma {:induction false} GreedyIsTopological<T(!new)>(
      nodes: set<T>, edges: set<(T, T)>, le: (T, T) -> bool, order: seq<T>)
    requires Greedy(nodes, edges, le, order)
    ensures Distinct(order) && Elements(order) <= nodes
    ensures Elements(order) == nodes ==> Topological(nodes, edges, order)
  {
    forall i, j | 0 <= i < j < |order| ensures order[i] != order[j] {
      assert IsChoice(nodes, edges, le, order[..j], order[j]);
      assert order[..j][i] == order[i];
    }
    forall k, t | 0 <= k < |order| && (order[k], t) in edges ensures t in order[..k] {
      assert IsChoice(nodes, edges, le, order[..k], order[k]);
    }
    forall k | 0 <= k < |order| ensures order[k] in nodes {
      assert IsChoice(nodes, edges, le, order[..k], order[k]);
    }
  }

  /** The greedy order is the lexicographically least topological order. */
  lemma GreedyIsLeast<T(!new)>(
      nodes: set<T>, edges: set<(T, T)>, le: (T, T) -> bool, order: seq<T>, other: seq<T>, k: nat)
    requires Greedy(nodes, edges, le, order) && Elements(order) == nodes
    requires Topological(nodes, edges, other)
    requires k <= |order| && k <= |other| && order[..k] == other[..k]
    ensures LexLe(le, order, other)
    decreases |order| - k
  {
    GreedyIsTopological(nodes, edges, le, order);
    DistinctSameLength(order, other);
    if k == |order| {
      assert order == order[..k] == other[..k] == other;
    } else {
      assert IsChoice(nodes, edges, le, order[..k], order[k]);
      assert other[k] in nodes;
      assert other[k] !in other[..k];
      assert Available(nodes, edges, order[..k], other[k]);
      if order[k] == other[k] {
        assert order[..k + 1] == order[..k] + [order[k]];
        assert other[..k + 1] == other[..k] + [other[k]];
        GreedyIsLeast(nodes, edges, le, order, other, k + 1);
      }
    }
  }

  lemma {:induction false} DistinctCard<T(!new)>(s: seq<T>)
    requires Distinct(s)
    ensures |Elements(s)| == |s|
  {
    if s != [] {
      DistinctCard(s[1..]);
      assert s == [s[0]] + s[1..];
      assert Elements(s) == {s[0]} + Elements(s[1..]);
      assert s[0] !in Elements(s[1..]);
    }
  }

  lemma DistinctSameLength<T(!new)>(a: seq<T>, b: seq<T>)
    requires Distinct(a) && Distinct(b) && Elements(a) == Elements(b)
    ensures |a| == |b|
  {
    DistinctCard(a);
    DistinctCard(b);
  }

  lemma NothingFollowsExhausted<T(!new)>(
      nodes: set<T>, edges: set<(T, T)>, le: (T, T) -> bool, a: seq<T>, b: seq<T>)
    requires Exhausted(nodes, edges, a) && Greedy(nodes, edges, le, b)
    requires |a| <= |b| && b[..|a|] == a[..|a|]
    ensures a == b
  {
    assert a[..|a|] == a;
    if |a| < |b| {
      GreedyChooses(nodes, edges, le, b, |a|);
      assert false;
    }
  }

  lemma GreedyChooses<T(!new)>(nodes: set<T>, edges: set<(T, T)>, le: (T, T) -> bool, order: seq<T>, k: nat)
    requires Greedy(nodes, edges, le, order) && k < |order|
    ensures Available(nodes, edges, order[..k], order[k])
  {
    assert IsChoice(nodes, edges, le, order[..k], order[k]);
  }

  /** Two exhausted greedy runs are the same run. */
  lemma GreedyUnique<T(!new)>(
      nodes: set<T>, edges: set<(T, T)>, le: (T, T) -> bool, a: seq<T>, b: seq<T>, k: nat)
    requires TotalOrder(le)
    requires Greedy(nodes, edges, le, a) && Exhausted(nodes, edges, a)
    requires Greedy(nodes, edges, le, b) && Exhausted(nodes, edges, b)
    requires k <= |a| && k <= |b| && a[..k] == b[..k]
    ensures a == b
    decreases |a| - k
  {
    if k == |a| {
      NothingFollowsExhausted(nodes, edges, le, a, b);
    } else if k == |b| {
      NothingFollowsExhausted(nodes, edges, le, b, a);
    } else {
      assert IsChoice(nodes, edges, le, a[..k], a[k]);
      assert IsChoice(nodes, edges, le, b[..k], b[k]);
      assert a[..k + 1] == a[..k] + [a[k]];
      assert b[..k + 1] == b[..k] + [b[k]];
      GreedyUnique(nodes, edges, le, a, b, k + 1);
    }
  }

  /** Along a walk the place in a topological order only goes down. */
  lemma {:induction false} WalkDescends<T(!new)>(
      nodes: set<T>, edges: set<(T, T)>, order: seq<T>, path: seq<T>, start: nat) returns (last: nat)
    requires Topological(nodes, edges, order)
    requires path != [] && Walks(edges, path)
    requires start < |order| && order[start] == path[0]
    ensures last < |order| && order[last] == path[|path| - 1]
    ensures last + |path| - 1 <= start
    decreases |path|
  {
    if |path| == 1 {
      last := start;
    } else {
      assert (order[start], path[1]) in edges;
      var next: nat :| next < start && order[..start][next] == path[1];
      forall k | 0 <= k < |path[1..]| - 1 ensures (path[1..][k], path[1..][k + 1]) in edges {
        assert (path[k + 1], path[k + 1 + 1]) in edges;
      }
      last := WalkDescends(nodes, edges, order, path[1..], next);
    }
  }

  lemma TopologicalHasNoCycle<T(!new)>(nodes: set<T>, edges: set<(T, T)>, order: seq<T>, path: seq<T>)
    requires Closed(nodes, edges) && Topological(nodes, edges, order)
    ensures !IsCycle(edges, path)
  {
    if IsCycle(edges, path) {
      assert (path[0], path[1]) in edges;
      assert path[0] in Elements(order);
      var start: nat :| start < |order| && order[start] == path[0];
      var last := WalkDescends(nodes, edges, order, path, start);
      assert false;
    }
  }

  // What is left when nothing is available any more

  ghost function Stuck<T(!new)>(nodes: set<T>, done: seq<T>): set<T> {
    nodes - Elements(done)
  }

  ghost predicate EachDependsInside<T(!new)>(edges: set<(T, T)>, stuck: set<T>) {
    forall x {:trigger Dependencies(edges, stuck, x)} :: x in stuck ==> Dependencies(edges, stuck, x) != {}
  }

  ghost function Dependencies<T(!new)>(edges: set<(T, T)>, inside: set<T>, x: T): set<T> {
    set t | t in inside && (x, t) in edges
  }

  lemma StuckDependsOnStuck<T(!new)>(nodes: set<T>, edges: set<(T, T)>, done: seq<T>)
    requires Closed(nodes, edges) && Exhausted(nodes, edges, done)
    ensures EachDependsInside(edges, Stuck(nodes, done))
  {
    forall x | x in Stuck(nodes, done) ensures Dependencies(edges, Stuck(nodes, done), x) != {} {
      assert !Available(nodes, edges, done, x);
      var t :| (x, t) in edges && t !in done;
      assert (x, t).1 in nodes;
      assert t in Dependencies(edges, Stuck(nodes, done), x);
    }
  }

  ghost predicate IsLeast<T(!new)>(le: (T, T) -> bool, s: set<T>, x: T) {
    x in s && forall y :: y in s ==> le(x, y)
  }

  lemma {:induction false} LeastExists<T(!new)>(le: (T, T) -> bool, s: set<T>) returns (x: T)
    requires TotalOrder(le) && s != {}
    ensures IsLeast(le, s, x)
    decreases |s|
  {
    var y :| y in s;
    if s == {y} {
      x := y;
      assert le(y, y);
    } else {
      var z := LeastExists(le, s - {y});
      x := if le(y, z) then y else z;
    }
  }

  ghost function Least<T(!new)>(le: (T, T) -> bool, s: set<T>): (x: T)
    requires TotalOrder(le) && s != {}
    ensures IsLeast(le, s, x)
  {
    LeastIsThere(le, s);
    var x :| IsLeast(le, s, x);
    x
  }

  lemma LeastIsThere<T(!new)>(le: (T, T) -> bool, s: set<T>)
    requires TotalOrder(le) && s != {}
    ensures exists x :: IsLeast(le, s, x)
  {
    var x := LeastExists(le, s);
  }

  /**
   Follows `next` from the end of `path` until a node repeats, and closes the cycle there.
   */
  ghost function Chase<T(!new)>(next: T -> T, stuck: set<T>, path: seq<T>): (r: seq<T>)
    requires StaysInside(next, stuck) && IsTrail(stuck, path)
    decreases |stuck - Elements(path)|
  {
    assert path[|path| - 1] in Elements(path);
    var target := next(path[|path| - 1]);
    if target in path then path[PositionOf(path, target)..] + [target]
    else
      ExtendTrail(stuck, path, target);
      Chase(next, stuck, path + [target])
  }

  lemma ChaseStep<T(!new)>(next: T -> T, stuck: set<T>, path: seq<T>, target: T)
    requires StaysInside(next, stuck) && IsTrail(stuck, path)
    requires target == next(path[|path| - 1]) && target !in path
    ensures IsTrail(stuck, path + [target]) && |stuck - Elements(path + [target])| < |stuck - Elements(path)|
    ensures Chase(next, stuck, path) == Chase(next, stuck, path + [target])
  {
    assert path[|path| - 1] in Elements(path);
    ExtendTrail(stuck, path, target);
  }

  ghost predicate StaysInside<T(!new)>(next: T -> T, stuck: set<T>) {
    forall x {:trigger next(x)} :: x in stuck ==> next(x) in stuck
  }

  ghost predicate FollowsEdges<T(!new)>(next: T -> T, stuck: set<T>, edges: set<(T, T)>) {
    forall x {:trigger next(x)} :: x in stuck ==> (x, next(x)) in edges
  }

  /** A path that repeats no node and stays among the stuck ones. */
  ghost predicate IsTrail<T(!new)>(stuck: set<T>, path: seq<T>) {
    path != [] && Distinct(path) && Elements(path) <= stuck
  }

  /** Takes each stuck node to the least stuck node it depends on. */
  ghost function NextIn<T(!new)>(edges: set<(T, T)>, le: (T, T) -> bool, stuck: set<T>): (next: T -> T)
    requires TotalOrder(le) && EachDependsInside(edges, stuck)
    ensures StaysInside(next, stuck) && FollowsEdges(next, stuck, edges)
  {
    x => if x in stuck then NextStuck(edges, le, stuck, x) else x
  }

  ghost function NextStuck<T(!new)>(edges: set<(T, T)>, le: (T, T) -> bool, stuck: set<T>, x: T): (t: T)
    requires TotalOrder(le) && EachDependsInside(edges, stuck) && x in stuck
    ensures t in stuck && (x, t) in edges
  {
    Least(le, Dependencies(edges, stuck, x))
  }

  ghost function PositionOf<T(!new)>(path: seq<T>, x: T): (k: nat)
    requires x in path
    ensures k < |path| && path[k] == x
  {
    var k: nat :| k < |path| && path[k] == x;
    k
  }

  lemma ExtendTrail<T(!new)>(stuck: set<T>, path: seq<T>, target: T)
    requires IsTrail(stuck, path) && target in stuck && target !in path
    ensures IsTrail(stuck, path + [target])
    ensures |stuck - Elements(path + [target])| < |stuck - Elements(path)|
  {
    assert stuck - Elements(path + [target]) < stuck - Elements(path) by {
      assert target in stuck - Elements(path);
      assert (path + [target])[|path|] == target;
    }
    SmallerSubset(stuck - Elements(path + [target]), stuck - Elements(path));
  }

  lemma SmallerSubset<T(!new)>(a: set<T>, b: set<T>)
    requires a < b
    ensures |a| < |b|
  {
    assert b == a + (b - a);
    assert |b| == |a| + |b - a|;
  }

  lemma ClosesCycle<T(!new)>(edges: set<(T, T)>, path: seq<T>, k: nat)
    requires Distinct(path) && Walks(edges, path)
    requires k < |path| && (path[|path| - 1], path[k]) in edges
    ensures IsSimpleCycle(edges, path[k..] + [path[k]])
  {
    var cycle := path[k..] + [path[k]];
    forall i | 0 <= i < |cycle| - 1 ensures (cycle[i], cycle[i + 1]) in edges {
      if i + 1 < |path| - k { assert (path[k + i], path[k + i + 1]) in edges; }
    }
  }

  /** The chase always closes a cycle that repeats no other node. */
  lemma {:induction false} ChaseFindsCycle<T(!new)>(edges: set<(T, T)>, next: T -> T, stuck: set<T>, path: seq<T>)
    requires StaysInside(next, stuck) && IsTrail(stuck, path) && Walks(edges, path)
    requires FollowsEdges(next, stuck, edges)
    ensures IsSimpleCycle(edges, Chase(next, stuck, path))
    decreases |stuck - Elements(path)|
  {
    assert path[|path| - 1] in Elements(path);
    var target := next(path[|path| - 1]);
    if target in path {
      ClosesCycle(edges, path, PositionOf(path, target));
    } else {
      ExtendTrail(stuck, path, target);
      ExtendWalk(edges, path, target);
      ChaseFindsCycle(edges, next, stuck, path + [target]);
    }
  }

  lemma ExtendWalk<T(!new)>(edges: set<(T, T)>, path: seq<T>, next: T)
    requires path != [] && Walks(edges, path) && (path[|path| - 1], next) in edges
    ensures Walks(edges, path + [next])
  {
    var longer := path + [next];
    forall k | 0 <= k < |longer| - 1 ensures (longer[k], longer[k + 1]) in edges {
      if k < |path| - 1 { assert (path[k], path[k + 1]) in edges; }
    }
  }

  /** The cycle the search reports: chased from the least stuck node. */
  ghost function StuckCycle<T(!new)>(edges: set<(T, T)>, le: (T, T) -> bool, stuck: set<T>): (r: seq<T>)
    requires TotalOrder(le) && EachDependsInside(edges, stuck) && stuck != {}
  {
    Chase(NextIn(edges, le, stuck), stuck, [Least(le, stuck)])
  }

  lemma StuckCycleIsCycle<T(!new)>(edges: set<(T, T)>, le: (T, T) -> bool, stuck: set<T>)
    requires TotalOrder(le) && EachDependsInside(edges, stuck) && stuck != {}
    ensures IsSimpleCycle(edges, StuckCycle(edges, le, stuck))
  {
    ChaseFindsCycle(edges, NextIn(edges, le, stuck), stuck, [Least(le, stuck)]);
  }

  // The whole result as a function of the graph alone

  ghost predicate IsOutcome<T(!new)>(nodes: set<T>, edges: set<(T, T)>, le: (T, T) -> bool, r: Outcome<T>)
    requires TotalOrder(le) && Closed(nodes, edges)
  {
    exists done :: IsExhaustedRun(nodes, edges, le, done) && r == OutcomeOf(nodes, edges, le, done)
  }

  ghost predicate IsExhaustedRun<T(!new)>(nodes: set<T>, edges: set<(T, T)>, le: (T, T) -> bool, done: seq<T>) {
    Greedy(nodes, edges, le, done) && Exhausted(nodes, edges, done)
  }

  ghost function OutcomeOf<T(!new)>(
      nodes: set<T>, edges: set<(T, T)>, le: (T, T) -> bool, done: seq<T>): Outcome<T>
    requires TotalOrder(le) && Closed(nodes, edges) && IsExhaustedRun(nodes, edges, le, done)
  {
    var stuck := Stuck(nodes, done);
    if stuck == {} then Ordered(done)
    else
      StuckDependsOnStuck(nodes, edges, done);
      Cyclic(StuckCycle(edges, le, stuck))
  }

  lemma OutcomeUnique<T(!new)>(
      nodes: set<T>, edges: set<(T, T)>, le: (T, T) -> bool, r1: Outcome<T>, r2: Outcome<T>)
    requires TotalOrder(le) && Closed(nodes, edges)
    requires IsOutcome(nodes, edges, le, r1) && IsOutcome(nodes, edges, le, r2)
    ensures r1 == r2
  {
    var d1 :| IsExhaustedRun(nodes, edges, le, d1) && r1 == OutcomeOf(nodes, edges, le, d1);
    var d2 :| IsExhaustedRun(nodes, edges, le, d2) && r2 == OutcomeOf(nodes, edges, le, d2);
    GreedyUnique(nodes, edges, le, d1, d2, 0);
  }

  /**
   An outcome is an order exactly when the graph has no cycle; the order is then the least
   topological one, and otherwise the outcome is a simple cycle.
   */
  lemma OutcomeMeaning<T(!new)>(nodes: set<T>, edges: set<(T, T)>, le: (T, T) -> bool, r: Outcome<T>)
    requires TotalOrder(le) && Closed(nodes, edges)
    requires IsOutcome(nodes, edges, le, r)
    ensures r.Ordered? <==> forall path :: !IsCycle(edges, path)
    ensures r.Ordered? ==> Topological(nodes, edges, r.order)
    ensures r.Ordered? ==> forall other :: Topological(nodes, edges, other) ==> LexLe(le, r.order, other)
    ensures r.Cyclic? ==> IsSimpleCycle(edges, r.path)
  {
    var done :| IsExhaustedRun(nodes, edges, le, done) && r == OutcomeOf(nodes, edges, le, done);
    GreedyIsTopological(nodes, edges, le, done);
    var stuck := Stuck(nodes, done);
    if stuck == {} {
      forall x | x in nodes ensures x in Elements(done) { assert x !in stuck; }
      forall path ensures !IsCycle(edges, path) {
        TopologicalHasNoCycle(nodes, edges, done, path);
      }
      forall other | Topological(nodes, edges, other) ensures LexLe(le, done, other) {
        GreedyIsLeast(nodes, edges, le, done, other, 0);
      }
    } else {
      StuckDependsOnStuck(nodes, edges, done);
      StuckCycleIsCycle(edges, le, stuck);
    }
  }
}

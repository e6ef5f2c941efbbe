/**
 The graph code works on positions in a sorted node list. Replacing each position by its
 node turns an outcome over positions into the outcome over nodes.
 */
module Renaming {
  import opened Orders
  import opened Digraph

  ghost predicate InRange<T>(names: seq<T>, s: seq<nat>) {
    forall k :: 0 <= k < |s| ==> s[k] < |names|
  }

  function Rename<T>(names: seq<T>, s: seq<nat>): (r: seq<T>)
    requires forall k :: 0 <= k < |s| ==> s[k] < |names|
    ensures |r| == |s| && forall k :: 0 <= k < |s| ==> r[k] == names[s[k]]
  {
    seq(|s|, k requires 0 <= k < |s| => names[s[k]])
  }

  ghost function Below(n: nat): set<nat> {
    set i: nat | i < n && IsIndex(n, i)
  }

  predicate IsIndex(n: nat, i: nat) {
    i < n
  }

  /** The same graph seen through positions and through nodes. */
  ghost predicate SameGraph<T(!new)>(names: seq<T>, le: (T, T) -> bool, byIndex: set<(nat, nat)>, edges: set<(T, T)>) {
    && TotalOrder(le)
    && StrictlySorted(names, le)
    && (forall e :: e in byIndex ==> e.0 < |names| && e.1 < |names|)
    && (forall i: nat, j: nat :: i < |names| && j < |names| ==> ((i, j) in byIndex <==> (names[i], names[j]) in edges))
    && Closed(Elements(names), edges)
  }

  ghost function RenameOutcome<T>(names: seq<T>, o: Outcome<nat>): Outcome<T>
    requires InRange(names, if o.Ordered? then o.order else o.path)
  {
    match o
    case Ordered(order) => Ordered(Rename(names, order))
    case Cyclic(path) => Cyclic(Rename(names, path))
  }

  lemma RenameMembers<T(!new)>(names: seq<T>, le: (T, T) -> bool, s: seq<nat>, i: nat)
    requires StrictlySorted(names, le) && InRange(names, s) && i < |names|
    ensures names[i] in Rename(names, s) <==> i in s
  {
    var r := Rename(names, s);
    if names[i] in r {
      var k :| 0 <= k < |r| && r[k] == names[i];
      assert s[k] == i;
    }
    if i in s {
      var k :| 0 <= k < |s| && s[k] == i;
      assert r[k] == names[i];
    }
  }

  lemma RenameAvailable<T(!new)>(
      names: seq<T>, le: (T, T) -> bool, byIndex: set<(nat, nat)>, edges: set<(T, T)>, done: seq<nat>, i: nat)
    requires SameGraph(names, le, byIndex, edges) && InRange(names, done) && i < |names|
    ensures Available(Below(|names|), byIndex, done, i)
       <==> Available(Elements(names), edges, Rename(names, done), names[i])
  {
    RenameMembers(names, le, done, i);
    if Available(Below(|names|), byIndex, done, i) {
      forall t | (names[i], t) in edges ensures t in Rename(names, done) {
        assert (names[i], t).1 in names;
        var j :| 0 <= j < |names| && names[j] == t;
        assert (i, j) in byIndex;
        RenameMembers(names, le, done, j);
      }
    }
    if Available(Elements(names), edges, Rename(names, done), names[i]) {
      forall j | (i, j) in byIndex ensures j in done {
        assert (i, j).1 < |names|;
        assert (names[i], names[j]) in edges;
        RenameMembers(names, le, done, j);
      }
    }
  }

  lemma RenameChoice<T(!new)>(
      names: seq<T>, le: (T, T) -> bool, byIndex: set<(nat, nat)>, edges: set<(T, T)>, done: seq<nat>, i: nat)
    requires SameGraph(names, le, byIndex, edges) && InRange(names, done) && i < |names|
    requires IsChoice(Below(|names|), byIndex, NatLe, done, i)
    ensures IsChoice(Elements(names), edges, le, Rename(names, done), names[i])
  {
    RenameAvailable(names, le, byIndex, edges, done, i);
    forall y | Available(Elements(names), edges, Rename(names, done), y) ensures le(names[i], y) {
      var j: nat :| j < |names| && names[j] == y;
      RenameAvailable(names, le, byIndex, edges, done, j);
      assert NatLe(i, j);
    }
  }

  lemma RenameRun<T(!new)>(
      names: seq<T>, le: (T, T) -> bool, byIndex: set<(nat, nat)>, edges: set<(T, T)>, done: seq<nat>)
    requires SameGraph(names, le, byIndex, edges)
    requires IsExhaustedRun(Below(|names|), byIndex, NatLe, done)
    ensures InRange(names, done)
    ensures IsExhaustedRun(Elements(names), edges, le, Rename(names, done))
  {
    GreedyIsTopological(Below(|names|), byIndex, NatLe, done);
    assert forall k :: 0 <= k < |done| ==> done[k] in Elements(done);
    var run := Rename(names, done);
    forall k | 0 <= k < |run| ensures IsChoice(Elements(names), edges, le, run[..k], run[k]) {
      assert IsChoice(Below(|names|), byIndex, NatLe, done[..k], done[k]);
      assert run[..k] == Rename(names, done[..k]);
      RenameChoice(names, le, byIndex, edges, done[..k], done[k]);
    }
    forall x ensures !Available(Elements(names), edges, run, x) {
      if x in Elements(names) {
        var j: nat :| j < |names| && names[j] == x;
        RenameAvailable(names, le, byIndex, edges, done, j);
      }
    }
  }

  ghost predicate SameStuck<T>(names: seq<T>, stuck: set<nat>, stuckNodes: set<T>) {
    && (forall i :: i in stuck ==> i < |names|)
    && (forall i: nat :: i < |names| ==> (i in stuck <==> names[i] in stuckNodes))
    && (forall x :: x in stuckNodes ==> x in names)
  }

  lemma RenameLeast<T(!new)>(names: seq<T>, le: (T, T) -> bool, s: set<nat>, r: set<T>)
    requires TotalOrder(le) && StrictlySorted(names, le) && SameStuck(names, s, r) && s != {} && r != {}
    requires TotalOrder(NatLe)
    ensures names[Least(NatLe, s)] == Least(le, r)
  {
    var i := Least(NatLe, s);
    var x := Least(le, r);
    var j: nat :| j < |names| && names[j] == x;
    assert NatLe(i, j);
    assert le(x, names[i]);
  }

  lemma RenameNext<T(!new)>(
      names: seq<T>, le: (T, T) -> bool, byIndex: set<(nat, nat)>, edges: set<(T, T)>,
      stuck: set<nat>, stuckNodes: set<T>, i: nat)
    requires SameGraph(names, le, byIndex, edges) && TotalOrder(NatLe)
    requires SameStuck(names, stuck, stuckNodes) && i in stuck
    requires EachDependsInside(byIndex, stuck) && EachDependsInside(edges, stuckNodes)
    ensures names[NextStuck(byIndex, NatLe, stuck, i)] == NextStuck(edges, le, stuckNodes, names[i])
  {
    var s := Dependencies(byIndex, stuck, i);
    var r := Dependencies(edges, stuckNodes, names[i]);
    assert SameStuck(names, s, r);
    RenameLeast(names, le, s, r);
  }

  /** `nexts` is `next` with every position replaced by its node. */
  ghost predicate SameNext<T(!new)>(
      names: seq<T>, next: nat -> nat, nexts: T -> T, stuck: set<nat>, stuckNodes: set<T>)
  {
    && Distinct(names) && StaysInside(next, stuck) && StaysInside(nexts, stuckNodes)
    && SameStuck(names, stuck, stuckNodes)
    && (forall i {:trigger next(i)} :: i in stuck ==> next(i) < |names| && names[next(i)] == nexts(names[i]))
  }

  lemma RenameTrail<T(!new)>(names: seq<T>, stuck: set<nat>, stuckNodes: set<T>, path: seq<nat>)
    requires Distinct(names) && SameStuck(names, stuck, stuckNodes) && IsTrail(stuck, path)
    ensures InRange(names, path) && IsTrail(stuckNodes, Rename(names, path))
    ensures forall i: nat :: i < |names| ==> (i in path <==> names[i] in Rename(names, path))
  {
    assert forall k :: 0 <= k < |path| ==> path[k] in Elements(path);
    var r := Rename(names, path);
    forall i: nat | i < |names| && i in path ensures names[i] in r {
      var k :| 0 <= k < |path| && path[k] == i;
      assert r[k] == names[i];
    }
  }

  lemma RenameClosing<T(!new)>(names: seq<T>, path: seq<nat>, target: nat)
    requires Distinct(names) && InRange(names, path) && Distinct(path)
    requires target in path
    ensures target < |names| && names[target] in Rename(names, path)
    ensures InRange(names, path[PositionOf(path, target)..] + [target])
    ensures Rename(names, path[PositionOf(path, target)..] + [target])
         == Rename(names, path)[PositionOf(Rename(names, path), names[target])..] + [names[target]]
  {
    var k := PositionOf(path, target);
    assert Rename(names, path)[k] == names[target];
  }

  lemma RenameChaseCloses<T(!new)>(
      names: seq<T>, next: nat -> nat, nexts: T -> T, stuck: set<nat>, stuckNodes: set<T>, path: seq<nat>)
    requires SameNext(names, next, nexts, stuck, stuckNodes) && IsTrail(stuck, path)
    requires next(path[|path| - 1]) in path
    ensures InRange(names, path) && IsTrail(stuckNodes, Rename(names, path))
    ensures InRange(names, Chase(next, stuck, path))
    ensures Rename(names, Chase(next, stuck, path)) == Chase(nexts, stuckNodes, Rename(names, path))
  {
    RenameTrail(names, stuck, stuckNodes, path);
    var target := RenameTarget(names, next, nexts, stuck, stuckNodes, path);
    RenameClosing(names, path, target);
  }

  lemma RenameAppend<T>(names: seq<T>, s: seq<nat>, x: nat)
    requires InRange(names, s) && x < |names|
    ensures InRange(names, s + [x]) && Rename(names, s + [x]) == Rename(names, s) + [names[x]]
  {
  }

  /** One more step of both chases, side by side. */
  lemma RenameChaseGoesOn<T(!new)>(
      names: seq<T>, next: nat -> nat, nexts: T -> T, stuck: set<nat>, stuckNodes: set<T>, path: seq<nat>)
      returns (longer: seq<nat>)
    requires SameNext(names, next, nexts, stuck, stuckNodes) && IsTrail(stuck, path)
    requires next(path[|path| - 1]) !in path
    ensures InRange(names, path) && IsTrail(stuckNodes, Rename(names, path))
    ensures IsTrail(stuck, longer) && |stuck - Elements(longer)| < |stuck - Elements(path)|
    ensures Chase(next, stuck, path) == Chase(next, stuck, longer)
    ensures InRange(names, longer) && IsTrail(stuckNodes, Rename(names, longer))
    ensures Chase(nexts, stuckNodes, Rename(names, path)) == Chase(nexts, stuckNodes, Rename(names, longer))
  {
    RenameTrail(names, stuck, stuckNodes, path);
    var target := RenameTarget(names, next, nexts, stuck, stuckNodes, path);
    longer := path + [target];
    ChaseStep(next, stuck, path, target);
    ChaseStep(nexts, stuckNodes, Rename(names, path), names[target]);
    RenameAppend(names, path, target);
  }

  lemma {:induction false} RenameChase<T(!new)>(
      names: seq<T>, next: nat -> nat, nexts: T -> T, stuck: set<nat>, stuckNodes: set<T>, path: seq<nat>)
    requires SameNext(names, next, nexts, stuck, stuckNodes) && IsTrail(stuck, path)
    ensures InRange(names, path) && IsTrail(stuckNodes, Rename(names, path))
    ensures InRange(names, Chase(next, stuck, path))
    ensures Rename(names, Chase(next, stuck, path)) == Chase(nexts, stuckNodes, Rename(names, path))
    decreases |stuck - Elements(path)|
  {
    if next(path[|path| - 1]) in path {
      RenameChaseCloses(names, next, nexts, stuck, stuckNodes, path);
    } else {
      var longer := RenameChaseGoesOn(names, next, nexts, stuck, stuckNodes, path);
      RenameChase(names, next, nexts, stuck, stuckNodes, longer);
    }
  }

  lemma RenameTarget<T(!new)>(
      names: seq<T>, next: nat -> nat, nexts: T -> T, stuck: set<nat>, stuckNodes: set<T>, path: seq<nat>)
      returns (target: nat)
    requires SameNext(names, next, nexts, stuck, stuckNodes) && IsTrail(stuck, path) && InRange(names, path)
    ensures target == next(path[|path| - 1]) && target in stuck && target < |names|
    ensures names[target] == nexts(Rename(names, path)[|path| - 1])
  {
    assert path[|path| - 1] in Elements(path);
    target := next(path[|path| - 1]);
  }

  lemma RenameNextIn<T(!new)>(
      names: seq<T>, le: (T, T) -> bool, byIndex: set<(nat, nat)>, edges: set<(T, T)>,
      stuck: set<nat>, stuckNodes: set<T>)
    requires SameGraph(names, le, byIndex, edges) && TotalOrder(NatLe)
    requires SameStuck(names, stuck, stuckNodes)
    requires EachDependsInside(byIndex, stuck) && EachDependsInside(edges, stuckNodes)
    ensures SameNext(names, NextIn<nat>(byIndex, NatLe, stuck), NextIn(edges, le, stuckNodes), stuck, stuckNodes)
  {
    var next, nexts := NextIn<nat>(byIndex, NatLe, stuck), NextIn(edges, le, stuckNodes);
    forall i: nat {:trigger next(i)} | i in stuck ensures next(i) < |names| && names[next(i)] == nexts(names[i]) {
      RenameNext(names, le, byIndex, edges, stuck, stuckNodes, i);
    }
  }

  /** What is stuck by position is stuck by node, and is chased to the same cycle. */
  lemma RenameCycle<T(!new)>(
      names: seq<T>, next: nat -> nat, nexts: T -> T, stuck: set<nat>, stuckNodes: set<T>, first: nat, firstNode: T)
    requires SameNext(names, next, nexts, stuck, stuckNodes)
    requires first in stuck && names[first] == firstNode
    ensures IsTrail(stuck, [first]) && IsTrail(stuckNodes, [firstNode])
    ensures InRange(names, Chase(next, stuck, [first]))
    ensures Rename(names, Chase(next, stuck, [first])) == Chase(nexts, stuckNodes, [firstNode])
  {
    assert Rename(names, [first]) == [firstNode];
    RenameChase(names, next, nexts, stuck, stuckNodes, [first]);
  }

  lemma RenameStuck<T(!new)>(names: seq<T>, le: (T, T) -> bool, done: seq<nat>)
    requires StrictlySorted(names, le) && InRange(names, done)
    ensures SameStuck(names, Stuck(Below(|names|), done), Stuck(Elements(names), Rename(names, done)))
    ensures Stuck(Below(|names|), done) == {} <==> Stuck(Elements(names), Rename(names, done)) == {}
  {
    var n := |names|;
    var stuck, stuckNodes := Stuck(Below(n), done), Stuck(Elements(names), Rename(names, done));
    forall i: nat | i < n ensures i in stuck <==> names[i] in stuckNodes {
      RenameMembers(names, le, done, i);
    }
    assert forall x :: x in stuckNodes ==> x in names;
    if i :| i in stuck {
      assert names[i] in stuckNodes;
    }
    if x :| x in stuckNodes {
      var j: nat :| j < n && names[j] == x;
      assert j in stuck;
    }
  }

  /** An outcome over positions is the outcome over nodes. */
  lemma RenameIsOutcome<T(!new)>(
      names: seq<T>, le: (T, T) -> bool, byIndex: set<(nat, nat)>, edges: set<(T, T)>, done: seq<nat>)
    requires SameGraph(names, le, byIndex, edges) && TotalOrder(NatLe)
    requires IsExhaustedRun(Below(|names|), byIndex, NatLe, done)
    ensures Closed(Below(|names|), byIndex)
    ensures var o := OutcomeOf(Below(|names|), byIndex, NatLe, done);
      && InRange(names, if o.Ordered? then o.order else o.path)
      && IsOutcome(Elements(names), edges, le, RenameOutcome(names, o))
  {
    RenameRun(names, le, byIndex, edges, done);
    RenameStuck(names, le, done);
    var run := Rename(names, done);
    var stuck, stuckNodes := Stuck(Below(|names|), done), Stuck(Elements(names), run);
    if stuck != {} {
      StuckDependsOnStuck(Below(|names|), byIndex, done);
      StuckDependsOnStuck(Elements(names), edges, run);
      RenameNextIn(names, le, byIndex, edges, stuck, stuckNodes);
      RenameLeast(names, le, stuck, stuckNodes);
      RenameCycle(names, NextIn<nat>(byIndex, NatLe, stuck), NextIn(edges, le, stuckNodes), stuck, stuckNodes,
                  Least(NatLe, stuck), Least(le, stuckNodes));
    }
    assert RenameOutcome(names, OutcomeOf(Below(|names|), byIndex, NatLe, done)) ==
      OutcomeOf(Elements(names), edges, le, run);
  }
}

/** The coloured depth-first search that names a cycle once Kahn's loop stalls (`find_cycle`). */
module CycleSearch {
  import opened Prelude
  import opened Orders
  import opened Digraph
  import opened Renaming
  import opened Kahn

  /** A path entry with the slice of its edges that is still to be tried. */
  datatype Frame = Frame(node: nat, next: nat, end: nat)

  function FirstEdge(forward: seq<(nat, nat)>, node: nat): nat {
    PartitionPoint(forward, (e: (nat, nat)) => e.0 < node)
  }

  function EndEdge(forward: seq<(nat, nat)>, node: nat): nat {
    PartitionPoint(forward, (e: (nat, nat)) => e.0 <= node)
  }

  /** The stuck positions and the edges they are searched along. */
  ghost predicate Stalled(n: nat, forward: seq<(nat, nat)>, stuck: set<nat>) {
    && TotalOrder(NatLe)
    && StrictlySorted(forward, PairLe) && EdgesBelow(n, forward)
    && (forall i :: i in stuck ==> i < n)
    && EachDependsInside(Elements(forward), stuck)
  }

  ghost function Next(n: nat, forward: seq<(nat, nat)>, stuck: set<nat>): nat -> nat
    requires Stalled(n, forward, stuck)
  {
    NextIn<nat>(Elements(forward), NatLe, stuck)
  }

  /** Colours, path positions and frames all describe one path of distinct stuck positions. */
  ghost predicate Describes(
      n: nat, stuck: set<nat>, colors: seq<nat>, positions: seq<Option<nat>>, path: seq<nat>, frames: seq<Frame>)
  {
    && |colors| == n && |positions| == n && |frames| == |path|
    && IsTrail(stuck, path)
    && (forall k :: 0 <= k < |path| ==> path[k] < n && frames[k].node == path[k] && positions[path[k]] == Some(k))
    && (forall i: nat :: i < n ==> colors[i] == (if i !in stuck then 2 else if i in path then 1 else 0))
  }

  /** Every edge of the frame before `next` has been seen to leave the stuck positions. */
  ghost predicate Tried(forward: seq<(nat, nat)>, stuck: set<nat>, frame: Frame) {
    && frame.end == EndEdge(forward, frame.node)
    && FirstEdge(forward, frame.node) <= frame.next <= frame.end
    && forall e :: FirstEdge(forward, frame.node) <= e < frame.next ==> forward[e].1 !in stuck
  }

  /** A stuck position still has an edge to try, so the search never backtracks. */
  lemma NeverBacktracks(n: nat, forward: seq<(nat, nat)>, stuck: set<nat>, frame: Frame)
    requires Stalled(n, forward, stuck) && frame.node in stuck && Tried(forward, stuck, frame)
    ensures frame.next < frame.end <= |forward| && forward[frame.next].0 == frame.node
    ensures forward[frame.next].1 < n
  {
    SliceBounds(forward, frame.node, FirstEdge(forward, frame.node), EndEdge(forward, frame.node));
    var t :| t in Dependencies(Elements(forward), stuck, frame.node);
    var e :| 0 <= e < |forward| && forward[e] == (frame.node, t);
    assert frame.next <= e < frame.end;
    assert forward[frame.next] in forward;
  }

  /** The first edge that stays among the stuck positions goes to the least dependency. */
  lemma FirstStuckEdge(n: nat, forward: seq<(nat, nat)>, stuck: set<nat>, frame: Frame)
    requires Stalled(n, forward, stuck) && frame.node in stuck && Tried(forward, stuck, frame)
    requires frame.next < frame.end <= |forward| && forward[frame.next].0 == frame.node
    requires forward[frame.next].1 in stuck
    ensures Next(n, forward, stuck)(frame.node) == forward[frame.next].1
  {
    SliceBounds(forward, frame.node, FirstEdge(forward, frame.node), EndEdge(forward, frame.node));
    var target := forward[frame.next].1;
    var deps := Dependencies(Elements(forward), stuck, frame.node);
    assert forward[frame.next] in Elements(forward);
    assert target in deps;
    forall y | y in deps ensures NatLe(target, y) {
      var e :| 0 <= e < |forward| && forward[e] == (frame.node, y);
      assert frame.next <= e;
      assert frame.next < e ==> PairLe(forward[frame.next], forward[e]);
    }
    assert NatLe(Least(NatLe, deps), target);
  }

  ghost predicate Uncoloured(
      n: nat, stuck: set<nat>, colors: seq<nat>, positions: seq<Option<nat>>, frames: seq<Frame>) {
    && frames == [] && |colors| == n && |positions| == n
    && forall i: nat :: i < n ==> colors[i] == if i in stuck then 0 else 2
  }

  method PushFrame(n: nat, forward: seq<(nat, nat)>, ghost stuck: set<nat>, node: nat,
                   colors0: seq<nat>, positions0: seq<Option<nat>>, path0: seq<nat>, frames0: seq<Frame>)
      returns (colors: seq<nat>, positions: seq<Option<nat>>, path: seq<nat>, frames: seq<Frame>)
    requires Stalled(n, forward, stuck) && node in stuck && node !in path0
    requires path0 == [] || Describes(n, stuck, colors0, positions0, path0, frames0)
    requires path0 == [] ==> Uncoloured(n, stuck, colors0, positions0, frames0)
    ensures path == path0 + [node]
    ensures Describes(n, stuck, colors, positions, path, frames)
    ensures Tried(forward, stuck, frames[|frames| - 1])
  {
    colors := colors0[node := 1];
    positions := positions0[node := Some(|path0|)];
    path := path0 + [node];
    var start := FirstEdge(forward, node);
    var end := EndEdge(forward, node);
    frames := frames0 + [Frame(node, start, end)];
    SliceBounds(forward, node, start, end);
    assert path0 != [] ==> IsTrail(stuck, path0);
    if path0 != [] { ExtendTrail(stuck, path0, node); }
    assert forall i :: i in path <==> i in path0 || i == node;
    assert forall k :: 0 <= k < |path0| ==> path0[k] in path0;
  }

  /**
   The stack of frames only grows until an edge comes back to the path: no frame is popped,
   the loop over starting points never resumes, and the `Inconsistent` results cannot occur.
   */
  method FindCycle(n: nat, forward: seq<(nat, nat)>, remaining: seq<nat>, ghost stuck: set<nat>)
      returns (cycle: seq<nat>)
    requires Stalled(n, forward, stuck) && stuck != {}
    requires |remaining| == n && forall i: nat :: i < n ==> (remaining[i] == 0 <==> i !in stuck)
    ensures cycle == StuckCycle(Elements(forward), NatLe, stuck)
  {
    var colors := seq(n, i requires 0 <= i < n => if remaining[i] == 0 then 2 else 0);
    var positions: seq<Option<nat>> := seq(n, _ => None);
    var path: seq<nat>, frames: seq<Frame> := [], [];
    ghost var first := Least(NatLe, stuck);
    var startNode: nat := 0;
    while startNode < n && colors[startNode] != 0
      invariant startNode <= n
      invariant forall i: nat :: i < startNode ==> i !in stuck
    {
      startNode := startNode + 1;
    }
    assert startNode <= first < n;
    assert startNode in stuck;
    assert NatLe(first, startNode);
    colors, positions, path, frames := PushFrame(n, forward, stuck, startNode, colors, positions, path, frames);
    assert path == [first];
    StartsAtLeast(n, forward, stuck);
    var found: Option<seq<nat>> := None;
    while found.None?
      invariant found.None? ==> Describes(n, stuck, colors, positions, path, frames)
      invariant found.None? ==> Tried(forward, stuck, frames[|frames| - 1])
      invariant found.None? ==>
          Chase(Next(n, forward, stuck), stuck, path) == StuckCycle(Elements(forward), NatLe, stuck)
      invariant found.Some? ==> found.value == StuckCycle(Elements(forward), NatLe, stuck)
      decreases found.None?, |stuck - Elements(path)|,
                if found.None? then frames[|frames| - 1].end - frames[|frames| - 1].next else 0
    {
      colors, positions, path, frames, found := Advance(n, forward, stuck, colors, positions, path, frames);
    }
    cycle := found.value;
  }

  lemma StartsAtLeast(n: nat, forward: seq<(nat, nat)>, stuck: set<nat>)
    requires Stalled(n, forward, stuck) && stuck != {}
    ensures IsTrail(stuck, [Least(NatLe, stuck)])
    ensures Chase(Next(n, forward, stuck), stuck, [Least(NatLe, stuck)]) == StuckCycle(Elements(forward), NatLe, stuck)
  {
  }

  lemma ChaseOn(next: nat -> nat, stuck: set<nat>, path: seq<nat>)
    requires StaysInside(next, stuck) && IsTrail(stuck, path)
    ensures path[|path| - 1] in stuck
    ensures var target := next(path[|path| - 1]);
      if target in path then Chase(next, stuck, path) == path[PositionOf(path, target)..] + [target]
      else IsTrail(stuck, path + [target]) && Chase(next, stuck, path) == Chase(next, stuck, path + [target])
  {
    assert path[|path| - 1] in Elements(path);
    var target := next(path[|path| - 1]);
    if target !in path {
      ExtendTrail(stuck, path, target);
    }
  }

  lemma FrameAdvanced(
      n: nat, stuck: set<nat>, colors: seq<nat>, positions: seq<Option<nat>>, path: seq<nat>, frames: seq<Frame>)
    requires Describes(n, stuck, colors, positions, path, frames)
    ensures var top := |frames| - 1;
      Describes(n, stuck, colors, positions, path, frames[top := frames[top].(next := frames[top].next + 1)])
  {
  }

  lemma ColorOf(
      n: nat, stuck: set<nat>, colors: seq<nat>, positions: seq<Option<nat>>, path: seq<nat>, frames: seq<Frame>,
      target: nat)
    requires Describes(n, stuck, colors, positions, path, frames) && target < n
    ensures colors[target] == 0 ==> target in stuck && target !in path
    ensures colors[target] == 1 ==> target in stuck && target in path
    ensures colors[target] == 2 ==> target !in stuck
  {
  }

  lemma TriedOneMore(n: nat, forward: seq<(nat, nat)>, stuck: set<nat>, frame: Frame)
    requires Tried(forward, stuck, frame) && frame.next < frame.end <= |forward|
    requires forward[frame.next].1 !in stuck
    ensures Tried(forward, stuck, frame.(next := frame.next + 1))
  {
  }

  /** One turn of the inner loop on the top frame. */
  method Advance(n: nat, forward: seq<(nat, nat)>, ghost stuck: set<nat>,
                 colors0: seq<nat>, positions0: seq<Option<nat>>, path0: seq<nat>, frames0: seq<Frame>)
      returns (colors: seq<nat>, positions: seq<Option<nat>>, path: seq<nat>, frames: seq<Frame>,
               found: Option<seq<nat>>)
    requires Stalled(n, forward, stuck)
    requires Describes(n, stuck, colors0, positions0, path0, frames0)
    requires Tried(forward, stuck, frames0[|frames0| - 1])
    ensures found.Some? ==> found.value == Chase(Next(n, forward, stuck), stuck, path0)
    ensures found.None? ==>
      && Describes(n, stuck, colors, positions, path, frames)
      && Tried(forward, stuck, frames[|frames| - 1])
      && Chase(Next(n, forward, stuck), stuck, path) == Chase(Next(n, forward, stuck), stuck, path0)
    ensures found.None? ==>
      || |stuck - Elements(path)| < |stuck - Elements(path0)|
      || (&& path == path0
          && frames[|frames| - 1].end == frames0[|frames0| - 1].end
          && frames[|frames| - 1].next > frames0[|frames0| - 1].next)
  {
    colors, positions, path, frames, found := colors0, positions0, path0, frames0, None;
    var top := |frames| - 1;
    var frame := frames[top];
    assert frame.node in Elements(path);
    NeverBacktracks(n, forward, stuck, frame);
    if frame.next == frame.end {
      assert false;
    }
    var target := forward[frame.next].1;
    ChaseOn(Next(n, forward, stuck), stuck, path);
    FrameAdvanced(n, stuck, colors, positions, path, frames);
    frames := frames[top := frame.(next := frame.next + 1)];
    match colors[target] {
      case 0 =>
        ColorOf(n, stuck, colors, positions, path, frames, target);
        FirstStuckEdge(n, forward, stuck, frame);
        ExtendTrail(stuck, path, target);
        colors, positions, path, frames := PushFrame(n, forward, stuck, target, colors, positions, path, frames);
      case 1 =>
        ColorOf(n, stuck, colors, positions, path, frames, target);
        FirstStuckEdge(n, forward, stuck, frame);
        PositionOnPath(n, stuck, colors0, positions0, path0, frames0, target);
        found := Some(path[positions[target].value..] + [target]);
      case 2 =>
        ColorOf(n, stuck, colors, positions, path, frames, target);
        TriedOneMore(n, forward, stuck, frame);
      case _ =>
        assert false;
    }
  }

  /** `positions` agrees with the path, so the recorded start of the cycle is always usable. */
  lemma PositionOnPath(
      n: nat, stuck: set<nat>, colors: seq<nat>, positions: seq<Option<nat>>, path: seq<nat>, frames: seq<Frame>,
      target: nat)
    requires Describes(n, stuck, colors, positions, path, frames)
    requires target < n && colors[target] == 1
    ensures target in path && positions[target] == Some(PositionOf(path, target))
  {
    assert target in path;
    assert positions[path[PositionOf(path, target)]] == Some(PositionOf(path, target));
  }
}

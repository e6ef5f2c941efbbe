/** The sparse segment tree over ports (crates/ferrum2-rule/src/candidate.rs, `PortRangeCandidateIndex`). */
module PortTree {
  import opened Prelude
  import opened Orders
  import opened SparseIndex

  const U16_MAX: nat := 0xFFFF

  type Port = p: nat | 1 <= p <= 0xFFFF witness 1

  /** One range added under a candidate. */
  datatype PortRange = PortRange(first: Port, last: Port, candidate: nat)

  function Middle(first: nat, last: nat): (m: nat)
    requires first <= last
    ensures first <= m <= last && (first < last ==> m < last)
  {
    first + (last - first) / 2
  }

  /** Node ids that cover the queried ports inside `[first, last]`; each call overlaps the query. */
  function Cover(node: nat, first: nat, last: nat, queryFirst: nat, queryLast: nat): seq<nat>
    requires first <= last && queryFirst <= last && first <= queryLast && queryFirst <= queryLast
    decreases last - first
  {
    if queryFirst <= first && last <= queryLast then [node]
    else
      var middle := Middle(first, last);
      (if queryFirst <= middle then Cover(node * 2, first, middle, queryFirst, queryLast) else []) +
      (if queryLast > middle then Cover(node * 2 + 1, middle + 1, last, queryFirst, queryLast) else [])
  }

  function LeftCover(node: nat, first: nat, last: nat, queryFirst: nat, queryLast: nat): seq<nat>
    requires first <= last && first <= queryLast && queryFirst <= queryLast
  {
    if queryFirst <= Middle(first, last) then Cover(node * 2, first, Middle(first, last), queryFirst, queryLast) else []
  }

  function RightCover(node: nat, first: nat, last: nat, queryFirst: nat, queryLast: nat): seq<nat>
    requires first <= last && queryFirst <= last && queryFirst <= queryLast
  {
    if first < last && queryLast > Middle(first, last)
    then Cover(node * 2 + 1, Middle(first, last) + 1, last, queryFirst, queryLast) else []
  }

  lemma CoverSplits(node: nat, first: nat, last: nat, queryFirst: nat, queryLast: nat)
    requires first < last && queryFirst <= last && first <= queryLast && queryFirst <= queryLast
    requires !(queryFirst <= first && last <= queryLast)
    ensures Cover(node, first, last, queryFirst, queryLast)
         == LeftCover(node, first, last, queryFirst, queryLast) + RightCover(node, first, last, queryFirst, queryLast)
  {
  }

  /** Node ids from `node` down to the leaf of `port`. */
  function Path(node: nat, first: nat, last: nat, port: nat): seq<nat>
    requires first <= port <= last
    decreases last - first
  {
    if first == last then [node]
    else
      var middle := Middle(first, last);
      [node] +
        if port <= middle then Path(node * 2, first, middle, port)
        else Path(node * 2 + 1, middle + 1, last, port)
  }

  /** The part of the path below `node`. */
  function Below(node: nat, first: nat, last: nat, port: nat): seq<nat>
    requires first <= port <= last
  {
    if first == last then []
    else if port <= Middle(first, last) then Path(node * 2, first, Middle(first, last), port)
    else Path(node * 2 + 1, Middle(first, last) + 1, last, port)
  }

  function RangeCover(first: Port, last: Port): seq<nat>
    requires first <= last
  {
    Cover(1, 1, U16_MAX, first, last)
  }

  function PortPath(port: Port): seq<nat> {
    Path(1, 1, U16_MAX, port)
  }

  /** How many entries of a path are in a cover. */
  ghost function Hits(path: seq<nat>, cover: seq<nat>): nat {
    if path == [] then 0 else (if path[0] in cover then 1 else 0) + Hits(path[1..], cover)
  }

  /** `id` numbers `node` or one of its descendants. */
  ghost predicate Under(node: nat, id: nat) {
    id == node || (id > node && Under(node, id / 2))
  }

  lemma {:induction false} UnderChild(node: nat, id: nat)
    requires node >= 1 && (Under(node * 2, id) || Under(node * 2 + 1, id))
    ensures Under(node, id) && id > node
  {
    if id != node * 2 && id != node * 2 + 1 {
      UnderChild(node, id / 2);
    }
  }

  lemma {:induction false} ChildrenDisjoint(node: nat, id: nat)
    requires node >= 1 && Under(node * 2, id)
    ensures !Under(node * 2 + 1, id)
  {
    if id != node * 2 && id > node * 2 + 1 {
      ChildrenDisjoint(node, id / 2);
    }
  }

  lemma {:induction false} CoverUnder(node: nat, first: nat, last: nat, queryFirst: nat, queryLast: nat)
    requires node >= 1 && first <= last && queryFirst <= last && first <= queryLast && queryFirst <= queryLast
    ensures forall id :: id in Cover(node, first, last, queryFirst, queryLast) ==> Under(node, id)
    decreases last - first
  {
    if !(queryFirst <= first && last <= queryLast) {
      ProperCoverBelow(node, first, last, queryFirst, queryLast);
    }
  }

  /** A cover that splits uses no id at or above its own node. */
  lemma {:induction false} ProperCoverBelow(node: nat, first: nat, last: nat, queryFirst: nat, queryLast: nat)
    requires node >= 1 && first <= last && queryFirst <= last && first <= queryLast && queryFirst <= queryLast
    requires !(queryFirst <= first && last <= queryLast)
    ensures forall id :: id in Cover(node, first, last, queryFirst, queryLast) ==> Under(node, id) && id > node
    decreases last - first, 0
  {
    var middle := Middle(first, last);
    if queryFirst <= middle { CoverUnder(node * 2, first, middle, queryFirst, queryLast); }
    if queryLast > middle { CoverUnder(node * 2 + 1, middle + 1, last, queryFirst, queryLast); }
    CoverSplits(node, first, last, queryFirst, queryLast);
    var left := LeftCover(node, first, last, queryFirst, queryLast);
    var right := RightCover(node, first, last, queryFirst, queryLast);
    forall id | id in left + right ensures Under(node, id) && id > node {
      assert id in left ==> Under(node * 2, id);
      UnderChild(node, id);
    }
  }

  lemma {:induction false} PathUnder(node: nat, first: nat, last: nat, port: nat)
    requires node >= 1 && first <= port <= last
    ensures forall id :: id in Path(node, first, last, port) ==> Under(node, id)
    decreases last - first
  {
    if first != last {
      var middle := Middle(first, last);
      if port <= middle {
        PathUnder(node * 2, first, middle, port);
        forall id | id in Path(node * 2, first, middle, port) ensures Under(node, id) { UnderChild(node, id); }
      } else {
        PathUnder(node * 2 + 1, middle + 1, last, port);
        forall id | id in Path(node * 2 + 1, middle + 1, last, port) ensures Under(node, id) { UnderChild(node, id); }
      }
    }
  }

  lemma {:induction false} HitsOnlyShared(path: seq<nat>, cover: seq<nat>, shared: seq<nat>)
    requires forall id :: id in path ==> (id in cover <==> id in shared)
    ensures Hits(path, cover) == Hits(path, shared)
  {
    if path != [] {
      assert path == [path[0]] + path[1..];
      HitsOnlyShared(path[1..], cover, shared);
    }
  }

  lemma {:induction false} NoHits(path: seq<nat>)
    ensures Hits(path, []) == 0
  {
    if path != [] { NoHits(path[1..]); }
  }

  /** Inside a node, a queried port is hit exactly once and any other port never. */
  lemma {:induction false} CoverExact(node: nat, first: nat, last: nat, queryFirst: nat, queryLast: nat, port: nat)
    requires node >= 1 && first <= port <= last
    requires queryFirst <= last && first <= queryLast && queryFirst <= queryLast
    ensures Hits(Path(node, first, last, port), Cover(node, first, last, queryFirst, queryLast))
         == if queryFirst <= port <= queryLast then 1 else 0
    decreases last - first
  {
    var below := Below(node, first, last, port);
    assert Path(node, first, last, port) == [node] + below;
    assert ([node] + below)[1..] == below;
    BelowUnder(node, first, last, port);
    if queryFirst <= first && last <= queryLast {
      HitsOnlyShared(below, [node], []);
      NoHits(below);
    } else {
      ProperCoverBelow(node, first, last, queryFirst, queryLast);
      BelowExact(node, first, last, queryFirst, queryLast, port, below);
    }
  }

  lemma BelowUnder(node: nat, first: nat, last: nat, port: nat)
    requires node >= 1 && first <= port <= last
    ensures forall id :: id in Below(node, first, last, port) ==> id > node
  {
    if first < last {
      var left := port <= Middle(first, last);
      PathUnder(if left then node * 2 else node * 2 + 1,
                if left then first else Middle(first, last) + 1,
                if left then Middle(first, last) else last, port);
      forall id | id in Below(node, first, last, port) ensures id > node { UnderChild(node, id); }
    }
  }

  /** Only the half of the cover on the port's side can hit the rest of the path. */
  lemma {:induction false} BelowExact(
      node: nat, first: nat, last: nat, queryFirst: nat, queryLast: nat, port: nat, below: seq<nat>)
    requires node >= 1 && first < last && first <= port <= last
    requires queryFirst <= last && first <= queryLast && queryFirst <= queryLast
    requires !(queryFirst <= first && last <= queryLast)
    requires below == Below(node, first, last, port)
    ensures Hits(below, Cover(node, first, last, queryFirst, queryLast)) ==
      if queryFirst <= port <= queryLast then 1 else 0
    decreases last - first, 0
  {
    var left := LeftCover(node, first, last, queryFirst, queryLast);
    var right := RightCover(node, first, last, queryFirst, queryLast);
    CoverSplits(node, first, last, queryFirst, queryLast);
    CoverSides(node, first, last, queryFirst, queryLast);
    PathUnder(if port <= Middle(first, last) then node * 2 else node * 2 + 1,
              if port <= Middle(first, last) then first else Middle(first, last) + 1,
              if port <= Middle(first, last) then Middle(first, last) else last, port);
    KeepsOneSide(node, below, left, right, port <= Middle(first, last));
    NoHits(below);
    if port <= Middle(first, last) {
      if queryFirst <= Middle(first, last) {
        CoverExact(node * 2, first, Middle(first, last), queryFirst, queryLast, port);
      }
    } else {
      if queryLast > Middle(first, last) {
        CoverExact(node * 2 + 1, Middle(first, last) + 1, last, queryFirst, queryLast, port);
      }
    }
  }

  lemma CoverSides(node: nat, first: nat, last: nat, queryFirst: nat, queryLast: nat)
    requires node >= 1 && first < last && queryFirst <= last && first <= queryLast && queryFirst <= queryLast
    ensures forall id :: id in LeftCover(node, first, last, queryFirst, queryLast) ==> Under(node * 2, id)
    ensures forall id :: id in RightCover(node, first, last, queryFirst, queryLast) ==> Under(node * 2 + 1, id)
  {
    var middle := Middle(first, last);
    if queryFirst <= middle { CoverUnder(node * 2, first, middle, queryFirst, queryLast); }
    if queryLast > middle { CoverUnder(node * 2 + 1, middle + 1, last, queryFirst, queryLast); }
  }

  lemma KeepsOneSide(node: nat, below: seq<nat>, left: seq<nat>, right: seq<nat>, leftSide: bool)
    requires node >= 1
    requires forall id :: id in left ==> Under(node * 2, id)
    requires forall id :: id in right ==> Under(node * 2 + 1, id)
    requires forall id :: id in below ==> Under(if leftSide then node * 2 else node * 2 + 1, id)
    ensures Hits(below, left + right) == Hits(below, if leftSide then left else right)
  {
    forall id | id in below ensures id in left + right <==> id in (if leftSide then left else right) {
      if Under(node * 2, id) { ChildrenDisjoint(node, id); }
    }
    HitsOnlyShared(below, left + right, if leftSide then left else right);
  }

  /** An added range meets the root-to-leaf path of each port inside it in exactly one node, and no other path. */
  lemma RangeHitsOnce(first: Port, last: Port, port: Port)
    requires first <= last
    ensures Hits(PortPath(port), RangeCover(first, last)) == if first <= port <= last then 1 else 0
  {
    CoverExact(1, 1, U16_MAX, first, last, port);
  }

  lemma {:induction false} HitsPositive(path: seq<nat>, cover: seq<nat>)
    ensures Hits(path, cover) > 0 <==> exists id :: id in path && id in cover
  {
    if path != [] {
      assert path == [path[0]] + path[1..];
      HitsPositive(path[1..], cover);
      if id :| id in path && id in cover {
        assert id == path[0] || id in path[1..];
      }
    }
  }

  // Size and numbering of a cover

  ghost function Pow2(n: nat): (r: nat)
    ensures r >= 1
  {
    if n == 0 then 1 else 2 * Pow2(n - 1)
  }

  ghost function AtLeastOne(n: int): nat {
    if n < 1 then 1 else n
  }

  /** A query that covers one end of the node needs one node a level at most. */
  lemma {:induction false} OneSidedSize(node: nat, first: nat, last: nat, queryFirst: nat, queryLast: nat, height: nat)
    requires first <= last && queryFirst <= last && first <= queryLast && queryFirst <= queryLast
    requires last - first < Pow2(height)
    requires queryFirst <= first || last <= queryLast
    ensures |Cover(node, first, last, queryFirst, queryLast)| <= AtLeastOne(height)
    decreases height
  {
    if !(queryFirst <= first && last <= queryLast) {
      var middle := Middle(first, last);
      if queryFirst <= middle { OneSidedSize(node * 2, first, middle, queryFirst, queryLast, height - 1); }
      if queryLast > middle { OneSidedSize(node * 2 + 1, middle + 1, last, queryFirst, queryLast, height - 1); }
    }
  }

  lemma {:induction false} CoverSize(node: nat, first: nat, last: nat, queryFirst: nat, queryLast: nat, height: nat)
    requires first <= last && queryFirst <= last && first <= queryLast && queryFirst <= queryLast
    requires last - first < Pow2(height)
    ensures |Cover(node, first, last, queryFirst, queryLast)| <= AtLeastOne(2 * (height - 1))
    decreases height
  {
    if !(queryFirst <= first && last <= queryLast) {
      var middle := Middle(first, last);
      if queryFirst <= middle && queryLast > middle {
        OneSidedSize(node * 2, first, middle, queryFirst, queryLast, height - 1);
        OneSidedSize(node * 2 + 1, middle + 1, last, queryFirst, queryLast, height - 1);
      } else if queryFirst <= middle {
        CoverSize(node * 2, first, middle, queryFirst, queryLast, height - 1);
      } else {
        CoverSize(node * 2 + 1, middle + 1, last, queryFirst, queryLast, height - 1);
      }
    }
  }

  lemma ChildrenFit(node: nat, height: nat)
    requires height >= 1
    ensures (2 * node + 2) * Pow2(height - 1) == (node + 1) * Pow2(height)
    ensures (2 * node + 1) * Pow2(height - 1) <= (node + 1) * Pow2(height)
    ensures 2 * node + 2 <= (node + 1) * Pow2(height)
  {
    var p := Pow2(height - 1);
    assert (2 * node + 2) * p == (node + 1) * (2 * p);
    assert (2 * node + 2) * p == (2 * node + 1) * p + p;
    assert (2 * node + 2) * p >= (2 * node + 2) * 1;
  }

  /** Both children fit where their parent does. */
  lemma HalvesFit(node: nat, first: nat, last: nat, height: nat)
    requires first < last && last - first < Pow2(height) && (node + 1) * Pow2(height) <= 0x2_0000
    ensures height >= 1
    ensures Middle(first, last) - first < Pow2(height - 1) && last - (Middle(first, last) + 1) < Pow2(height - 1)
    ensures (node * 2 + 1) * Pow2(height - 1) <= 0x2_0000 && (node * 2 + 1 + 1) * Pow2(height - 1) <= 0x2_0000
    ensures node * 2 + 1 <= U32_MAX
  {
    ChildrenFit(node, height);
  }

  lemma {:induction false} CoverIds(node: nat, first: nat, last: nat, queryFirst: nat, queryLast: nat, height: nat)
    requires first <= last && queryFirst <= last && first <= queryLast && queryFirst <= queryLast
    requires last - first < Pow2(height)
    ensures forall id :: id in Cover(node, first, last, queryFirst, queryLast) ==> id < (node + 1) * Pow2(height)
    decreases height
  {
    assert (node + 1) * Pow2(height) >= node + 1;
    if !(queryFirst <= first && last <= queryLast) {
      var middle := Middle(first, last);
      ChildrenFit(node, height);
      if queryFirst <= middle { CoverIds(node * 2, first, middle, queryFirst, queryLast, height - 1); }
      if queryLast > middle { CoverIds(node * 2 + 1, middle + 1, last, queryFirst, queryLast, height - 1); }
    }
  }

  lemma Pow2Of16()
    ensures Pow2(16) == 0x1_0000
  {
    assert Pow2(4) == 16;
    assert Pow2(8) == 256;
    assert Pow2(12) == 4096;
  }

  /** Thirty nodes at most for a range, all numbered below 2^17. */
  lemma RangeIsSmall(first: Port, last: Port)
    requires first <= last
    ensures |RangeCover(first, last)| <= 30
    ensures forall id :: id in RangeCover(first, last) ==> id < 0x2_0000
  {
    Pow2Of16();
    CoverSize(1, 1, U16_MAX, first, last, 16);
    CoverIds(1, 1, U16_MAX, first, last, 16);
  }

  // The builder and the visitor

  /** The entries that a list of ranges leaves in the tree. */
  ghost function EntriesOf(ranges: seq<PortRange>): seq<(nat, nat)>
    requires forall r :: r in ranges ==> r.first <= r.last
  {
    if ranges == [] then []
    else
      var r := ranges[|ranges| - 1];
      EntriesOf(ranges[..|ranges| - 1]) + Tagged(RangeCover(r.first, r.last), r.candidate)
  }

  ghost predicate RangeHolds(ranges: seq<PortRange>, port: Port, c: nat) {
    exists r :: r in ranges && r.first <= port <= r.last && r.candidate == c
  }

  /** Some node of the port's path was tagged with `c` exactly when a range of `c` holds the port. */
  lemma {:induction false} EntriesOnPath(ranges: seq<PortRange>, port: Port, c: nat)
    requires forall r :: r in ranges ==> r.first <= r.last
    ensures RangeHolds(ranges, port, c) <==> OnAny(EntriesOf(ranges), PortPath(port), c)
  {
    if ranges != [] {
      var r := ranges[|ranges| - 1];
      var rest := ranges[..|ranges| - 1];
      var added := Tagged(RangeCover(r.first, r.last), r.candidate);
      assert ranges == rest + [r];
      EntriesOnPath(rest, port, c);
      RangeHitsOnce(r.first, r.last, port);
      HitsPositive(PortPath(port), RangeCover(r.first, r.last));
      TaggedOnAny(RangeCover(r.first, r.last), r.candidate, PortPath(port), c);
      OnAnyBoth(EntriesOf(rest), added, PortPath(port), c);
      assert RangeHolds(ranges, port, c) <==>
        RangeHolds(rest, port, c) || (r.first <= port <= r.last && r.candidate == c) by {
        if RangeHolds(rest, port, c) {
          var q :| q in rest && q.first <= port <= q.last && q.candidate == c;
          assert q in ranges;
        }
        assert r in ranges;
      }
    }
  }

  lemma TaggedBoth(start: seq<(nat, nat)>, a: seq<nat>, b: seq<nat>, candidate: nat)
    ensures start + Tagged(a + b, candidate) == (start + Tagged(a, candidate)) + Tagged(b, candidate)
  {
  }

  datatype PortRangeCandidateIndex = PortRangeCandidateIndex(nodes: SparseValueIndex<nat>)

  class PortRangeCandidateIndexBuilder {
    var nodes: SparseValueIndexBuilder<nat>
    /** Every range added so far. */
    ghost var ranges: seq<PortRange>

    ghost predicate Valid()
      reads this
    {
      && (forall r :: r in ranges ==> r.first <= r.last)
      && nodes.entries == EntriesOf(ranges)
    }

    constructor ()
      ensures Valid() && ranges == []
    {
      nodes := SparseValueIndexBuilder([]);
      ranges := [];
    }

    method TryAdd(first: Port, last: Port, candidate: nat) returns (r: Result<()>)
      requires Valid()
      modifies this
      ensures Valid()
      ensures r == if first > last then Err(EmptyField) else if candidate > U32_MAX then Err(IndexOverflow) else Ok(())
      ensures ranges == if r.Ok? then old(ranges) + [PortRange(first, last, candidate)] else old(ranges)
    {
      if first > last {
        return Err(EmptyField);
      }
      Pow2Of16();
      r := TryAddInner(1, 1, U16_MAX, first, last, candidate, 16);
      if r.Ok? {
        ranges := ranges + [PortRange(first, last, candidate)];
        assert ranges[..|ranges| - 1] == old(ranges);
      }
    }

    /** Tags the covering nodes; the ids stay far below the 32-bit limit, so doubling never overflows. */
    method TryAddInner(node: nat, first: nat, last: nat, queryFirst: nat, queryLast: nat, candidate: nat,
                       ghost height: nat) returns (r: Result<()>)
      requires first <= last && queryFirst <= last && first <= queryLast && queryFirst <= queryLast
      requires last - first < Pow2(height) && (node + 1) * Pow2(height) <= 0x2_0000
      modifies this`nodes
      ensures r == if candidate > U32_MAX then Err(IndexOverflow) else Ok(())
      ensures nodes.entries == if r.Err? then old(nodes.entries)
        else old(nodes.entries) + Tagged(Cover(node, first, last, queryFirst, queryLast), candidate)
      decreases last - first
    {
      if queryFirst <= first && last <= queryLast {
        var added := nodes.TryAdd(node, candidate);
        match added {
          case Ok(builder) => nodes := builder; r := Ok(());
          case Err(error) => r := Err(error);
        }
        return;
      }
      var middle := Middle(first, last);
      HalvesFit(node, first, last, height);
      ghost var start := nodes.entries;
      ghost var left := LeftCover(node, first, last, queryFirst, queryLast);
      ghost var right := RightCover(node, first, last, queryFirst, queryLast);
      CoverSplits(node, first, last, queryFirst, queryLast);
      TaggedBoth(start, left, right, candidate);
      if queryFirst <= middle {
        if node * 2 > U32_MAX {
          assert false;
        }
        r := TryAddInner(node * 2, first, middle, queryFirst, queryLast, candidate, height - 1);
        if r.Err? {
          return;
        }
      }
      assert nodes.entries == start + Tagged(left, candidate);
      if queryLast > middle {
        if node * 2 + 1 > U32_MAX {
          assert false;
        }
        r := TryAddInner(node * 2 + 1, middle + 1, last, queryFirst, queryLast, candidate, height - 1);
        if r.Err? {
          return;
        }
      }
      r := Ok(());
    }

    method Finish() returns (index: PortRangeCandidateIndex)
      requires Valid()
      ensures IsPortIndex(index, ranges)
    {
      NatOrders();
      var built := Build(nodes, NatLe);
      index := PortRangeCandidateIndex(built);
    }
  }

  ghost predicate IsPortIndex(index: PortRangeCandidateIndex, ranges: seq<PortRange>) {
    && (forall r :: r in ranges ==> r.first <= r.last)
    && IsIndexOf(index.nodes, EntriesOf(ranges), NatLe)
  }

  /** The candidates whose ranges hold the port. */
  ghost function PortCandidates(ranges: seq<PortRange>, port: Port): set<nat> {
    set r | r in ranges && r.first <= port <= r.last :: r.candidate
  }

  /** Walks down from the root; the lists visited hold exactly the candidates whose ranges hold the port. */
  method VisitPort(index: PortRangeCandidateIndex, port: Port, ghost ranges: seq<PortRange>)
      returns (lists: seq<seq<nat>>)
    requires IsPortIndex(index, ranges)
    ensures Holds(lists, PortCandidates(ranges, port))
    ensures lists == ListsOf(index.nodes, PortPath(port))
  {
    NatOrders();
    ghost var entries := EntriesOf(ranges);
    ghost var whole := PortPath(port);
    ghost var walked: seq<nat> := [];
    ghost var held: set<nat> := {};
    ghost var rest := whole;
    var node: nat, first: nat, last: nat := 1, 1, U16_MAX;
    lists := [];
    var done := false;
    while !done
      invariant first <= port <= last
      invariant whole == walked + rest
      invariant rest == if done then [] else Path(node, first, last, port)
      invariant Visited(index.nodes, entries, walked, lists, held)
      decreases !done, last - first
    {
      lists, held := VisitNext(index.nodes, node, NatLe, entries, walked, lists, held);
      PathDown(whole, walked, node, first, last, port);
      walked := walked + [node];
      rest := Below(node, first, last, port);
      if first == last {
        done := true;
      } else {
        node, first, last := StepDown(node, first, last, port);
      }
    }
    assert walked == whole;
    HeldIsCandidates(ranges, port, held);
  }

  /** To the child on the port's side. */
  method StepDown(node: nat, first: nat, last: nat, port: nat) returns (childNode: nat, childFirst: nat, childLast: nat)
    requires first <= port <= last && first < last
    ensures first <= childFirst <= port <= childLast <= last && childLast - childFirst < last - first
    ensures Path(childNode, childFirst, childLast, port) == Below(node, first, last, port)
  {
    var middle := Middle(first, last);
    if port <= middle {
      childNode, childFirst, childLast := node * 2, first, middle;
    } else {
      childNode, childFirst, childLast := node * 2 + 1, middle + 1, last;
    }
  }

  lemma HeldIsCandidates(ranges: seq<PortRange>, port: Port, held: set<nat>)
    requires forall r :: r in ranges ==> r.first <= r.last
    requires forall c: nat :: c in held <==> OnAny(EntriesOf(ranges), PortPath(port), c)
    ensures held == PortCandidates(ranges, port)
  {
    forall c: nat ensures c in held <==> c in PortCandidates(ranges, port) {
      EntriesOnPath(ranges, port, c);
    }
  }

  lemma PathDown(whole: seq<nat>, walked: seq<nat>, node: nat, first: nat, last: nat, port: nat)
    requires first <= port <= last && whole == walked + Path(node, first, last, port)
    ensures whole == (walked + [node]) + Below(node, first, last, port)
  {
    var below := Below(node, first, last, port);
    assert Path(node, first, last, port) == [node] + below;
    assert walked + ([node] + below) == (walked + [node]) + below;
  }
}

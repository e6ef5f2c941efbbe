/** Kahn's loop over positions (crates/ferrum2-config/src/dependency.rs, `topological_order`). */
module Kahn {
  import opened Orders
  import opened Digraph
  import opened Renaming

  predicate NatGe(a: nat, b: nat) {
    a >= b
  }

  /** Positions that `i` depends on. */
  ghost function Needs(forward: seq<(nat, nat)>, i: nat): set<nat> {
    set e | e in forward && e.0 == i :: e.1
  }

  /** How many of them are not in `done`. */
  ghost function Left(forward: seq<(nat, nat)>, done: set<nat>, i: nat): nat {
    |Needs(forward, i) - done|
  }

  ghost predicate EdgesBelow(n: nat, forward: seq<(nat, nat)>) {
    forall e :: e in forward ==> e.0 < n && e.1 < n
  }

  function InsertReady(ready: seq<nat>, node: nat): (r: seq<nat>)
    ensures r == ready[..PartitionPoint(ready, c => c > node)] + [node] + ready[PartitionPoint(ready, c => c > node)..]
  {
    var position := PartitionPoint(ready, c => c > node);
    ready[..position] + [node] + ready[position..]
  }

  lemma InsertReadySorted(ready: seq<nat>, node: nat)
    requires StrictlySorted(ready, NatGe) && node !in ready
    ensures StrictlySorted(InsertReady(ready, node), NatGe)
    ensures forall i :: i in InsertReady(ready, node) <==> i in ready || i == node
  {
    var p := PartitionPoint(ready, c => c > node);
    var r := InsertReady(ready, node);
    assert forall k :: p <= k < |ready| ==> NatGe(ready[p], ready[k]);
    assert r[p] == node;
    forall i | i in ready ensures i in r {
      var k :| 0 <= k < |ready| && ready[k] == i;
      assert k < p ==> r[k] == i;
      assert k >= p ==> r[k + 1] == i;
    }
  }

  lemma LeftStep(forward: seq<(nat, nat)>, done: set<nat>, node: nat, i: nat)
    requires node !in done
    ensures Left(forward, done + {node}, i) == Left(forward, done, i) - if (i, node) in forward then 1 else 0
  {
    var needs := Needs(forward, i);
    if (i, node) in forward {
      assert (i, node).1 in needs - done;
      assert needs - (done + {node}) == (needs - done) - {node};
    } else {
      assert node !in needs;
      assert needs - (done + {node}) == needs - done;
    }
  }

  lemma LeftZero(forward: seq<(nat, nat)>, done: seq<nat>, i: nat)
    ensures Left(forward, Elements(done), i) == 0 <==> forall t: nat :: (i, t) in forward ==> t in done
  {
    var rest := Needs(forward, i) - Elements(done);
    if forall t: nat :: (i, t) in forward ==> t in done {
      assert Needs(forward, i) <= Elements(done) by {
        forall t | t in Needs(forward, i) ensures t in done { assert (i, t) in forward; }
      }
      assert rest == {};
    }
    if rest == {} {
      forall t: nat | (i, t) in forward ensures t in done {
        assert (i, t).1 in Needs(forward, i);
        assert t !in rest;
      }
    }
  }

  /** The initial counts: one per edge leaving the position. */
  method CountNeeds(n: nat, forward: seq<(nat, nat)>) returns (remaining: seq<nat>)
    requires StrictlySorted(forward, PairLe) && EdgesBelow(n, forward)
    ensures |remaining| == n
    ensures forall i: nat :: i < n ==> remaining[i] == Left(forward, {}, i)
  {
    remaining := seq(n, _ => 0);
    var k := 0;
    forall i: nat | i < n ensures Needs(forward[..0], i) == {} {}
    while k < |forward|
      invariant 0 <= k <= |forward| && |remaining| == n
      invariant forall i: nat :: i < n ==> remaining[i] == |Needs(forward[..k], i)|
    {
      var from := forward[k].0;
      assert forward[k] in forward;
      forall i: nat | i < n
        ensures |Needs(forward[..k + 1], i)| == |Needs(forward[..k], i)| + if i == from then 1 else 0
      {
        NeedsGrow(forward, k, i);
      }
      remaining := remaining[from := remaining[from] + 1];
      k := k + 1;
    }
    assert forward[..k] == forward;
    forall i: nat | i < n ensures Needs(forward, i) - {} == Needs(forward, i) {}
  }

  lemma NeedsAreEdges(edges: seq<(nat, nat)>, i: nat)
    ensures forall t: nat :: t in Needs(edges, i) <==> (i, t) in edges
  {
    forall t: nat | (i, t) in edges ensures t in Needs(edges, i) {
      assert (i, t).1 in Needs(edges, i);
    }
  }

  lemma NeedsGrow(forward: seq<(nat, nat)>, k: nat, i: nat)
    requires StrictlySorted(forward, PairLe) && k < |forward|
    ensures |Needs(forward[..k + 1], i)| == |Needs(forward[..k], i)| + if i == forward[k].0 then 1 else 0
  {
    var e := forward[k];
    assert forward[..k + 1] == forward[..k] + [e];
    if i == e.0 {
      assert Needs(forward[..k + 1], i) == Needs(forward[..k], i) + {e.1} by {
        assert e in forward[..k + 1];
        forall x | x in Needs(forward[..k + 1], i) ensures x in Needs(forward[..k], i) + {e.1} {
          assert (i, x) in forward[..k + 1];
        }
        forall x | x in Needs(forward[..k], i) ensures x in Needs(forward[..k + 1], i) {
          assert (i, x) in forward[..k];
        }
      }
      assert e !in forward[..k];
      NeedsAreEdges(forward[..k], i);
    } else {
      assert Needs(forward[..k + 1], i) == Needs(forward[..k], i) by {
        forall x | x in Needs(forward[..k + 1], i) ensures x in Needs(forward[..k], i) {
          assert (i, x) in forward[..k + 1];
        }
        forall x | x in Needs(forward[..k], i) ensures x in Needs(forward[..k + 1], i) {
          assert (i, x) in forward[..k];
        }
      }
    }
  }

  /** What holds whenever the loop looks for the next ready position. */
  ghost predicate Invariant(n: nat, forward: seq<(nat, nat)>, ordered: seq<nat>, ready: seq<nat>, remaining: seq<nat>) {
    && |remaining| == n
    && Greedy(Below(n), Elements(forward), NatLe, ordered)
    && StrictlySorted(ready, NatGe)
    && (forall i: nat :: i < n ==> remaining[i] == Left(forward, Elements(ordered), i))
    && (forall i: nat :: i in ready <==> i < n && i !in ordered && remaining[i] == 0)
  }

  lemma ReadyIsAvailable(n: nat, forward: seq<(nat, nat)>, ordered: seq<nat>, i: nat)
    requires EdgesBelow(n, forward)
    ensures Available(Below(n), Elements(forward), ordered, i)
       <==> i < n && i !in ordered && Left(forward, Elements(ordered), i) == 0
  {
    LeftZero(forward, ordered, i);
  }

  /** Placed positions have nothing left to wait for. */
  lemma PlacedNeedsNothing(n: nat, forward: seq<(nat, nat)>, ordered: seq<nat>, i: nat)
    requires EdgesBelow(n, forward) && Greedy(Below(n), Elements(forward), NatLe, ordered) && i in ordered
    ensures i < n && Left(forward, Elements(ordered), i) == 0
  {
    var k :| 0 <= k < |ordered| && ordered[k] == i;
    assert IsChoice(Below(n), Elements(forward), NatLe, ordered[..k], ordered[k]);
    LeftZero(forward, ordered, i);
  }

  lemma AppendChoice(n: nat, forward: seq<(nat, nat)>, ordered: seq<nat>, node: nat)
    requires Greedy(Below(n), Elements(forward), NatLe, ordered)
    requires IsChoice(Below(n), Elements(forward), NatLe, ordered, node)
    ensures Greedy(Below(n), Elements(forward), NatLe, ordered + [node])
    ensures Elements(ordered + [node]) == Elements(ordered) + {node}
  {
    var longer := ordered + [node];
    forall k | 0 <= k < |longer| ensures IsChoice(Below(n), Elements(forward), NatLe, longer[..k], longer[k]) {
      if k < |ordered| {
        assert longer[..k] == ordered[..k];
        assert IsChoice(Below(n), Elements(forward), NatLe, ordered[..k], ordered[k]);
      } else {
        assert longer[..k] == ordered;
      }
    }
  }

  /** The last entry of the descending stack is the greedy choice. */
  lemma LastIsChoice(n: nat, forward: seq<(nat, nat)>, ordered: seq<nat>, ready: seq<nat>, remaining: seq<nat>)
    requires EdgesBelow(n, forward) && Invariant(n, forward, ordered, ready, remaining) && ready != []
    ensures IsChoice(Below(n), Elements(forward), NatLe, ordered, ready[|ready| - 1])
  {
    var last := ready[|ready| - 1];
    assert last in ready;
    ReadyIsAvailable(n, forward, ordered, last);
    forall y: nat | Available(Below(n), Elements(forward), ordered, y) ensures NatLe(last, y) {
      ReadyIsAvailable(n, forward, ordered, y);
      var k :| 0 <= k < |ready| && ready[k] == y;
      assert k < |ready| - 1 ==> NatGe(ready[k], ready[|ready| - 1]);
    }
  }

  lemma ExhaustedWhenNoneReady(n: nat, forward: seq<(nat, nat)>, ordered: seq<nat>, remaining: seq<nat>)
    requires EdgesBelow(n, forward) && Invariant(n, forward, ordered, [], remaining)
    ensures IsExhaustedRun(Below(n), Elements(forward), NatLe, ordered)
    ensures forall i: nat :: i < n ==> (remaining[i] == 0 <==> i in ordered)
  {
    forall i: nat ensures !Available(Below(n), Elements(forward), ordered, i) {
      ReadyIsAvailable(n, forward, ordered, i);
    }
    forall i: nat | i < n ensures remaining[i] == 0 <==> i in ordered {
      if i in ordered {
        PlacedNeedsNothing(n, forward, ordered, i);
      }
    }
  }

  /** The reversed edge list, sorted by dependency. */
  ghost predicate IsReverse(forward: seq<(nat, nat)>, reverse: seq<(nat, nat)>) {
    StrictlySorted(reverse, PairLe) && forall i: nat, t: nat :: (t, i) in reverse <==> (i, t) in forward
  }

  /** The slice of `reverse` between the two partition points holds exactly the users of `node`. */
  ghost predicate UsersOf(forward: seq<(nat, nat)>, users: seq<(nat, nat)>, node: nat) {
    && Distinct(users)
    && (forall k :: 0 <= k < |users| ==> users[k].0 == node)
    && (forall i: nat :: (node, i) in users <==> (i, node) in forward)
  }

  lemma SliceBounds(reverse: seq<(nat, nat)>, node: nat, start: nat, end: nat)
    requires StrictlySorted(reverse, PairLe)
    requires start == PartitionPoint(reverse, (e: (nat, nat)) => e.0 < node)
    requires end == PartitionPoint(reverse, (e: (nat, nat)) => e.0 <= node)
    ensures start <= end <= |reverse|
    ensures forall k :: 0 <= k < |reverse| ==> (reverse[k].0 == node <==> start <= k < end)
  {
    assert forall k :: 0 <= k < start ==> reverse[k].0 < node;
    assert end < |reverse| ==> !(reverse[end].0 <= node);
    assert forall k :: start < k < |reverse| ==> PairLe(reverse[start], reverse[k]);
    assert forall k :: end < k < |reverse| ==> PairLe(reverse[end], reverse[k]);
  }

  lemma SliceIsUsers(forward: seq<(nat, nat)>, reverse: seq<(nat, nat)>, node: nat, start: nat, end: nat)
    requires IsReverse(forward, reverse)
    requires start <= end <= |reverse|
    requires forall k :: 0 <= k < |reverse| ==> (reverse[k].0 == node <==> start <= k < end)
    ensures UsersOf(forward, reverse[start..end], node)
  {
    var users := reverse[start..end];
    forall i: nat ensures (node, i) in users <==> (i, node) in forward {
      if (node, i) in users { assert (node, i) in reverse; }
      if (node, i) in reverse {
        var k :| 0 <= k < |reverse| && reverse[k] == (node, i);
        assert users[k - start] == (node, i);
      }
    }
  }

  /** Kahn's loop: the run it leaves is greedy and cannot be extended. */
  method Run(n: nat, forward: seq<(nat, nat)>) returns (ordered: seq<nat>, remaining: seq<nat>)
    requires StrictlySorted(forward, PairLe) && EdgesBelow(n, forward)
    ensures IsExhaustedRun(Below(n), Elements(forward), NatLe, ordered)
    ensures |remaining| == n && forall i: nat :: i < n ==> (remaining[i] == 0 <==> i in ordered)
  {
    var reverse := Reversed(forward);
    remaining := CountNeeds(n, forward);
    var ready := InitiallyReady(remaining);
    ordered := [];
    while ready != []
      invariant Invariant(n, forward, ordered, ready, remaining)
      decreases |Below(n) - Elements(ordered)|
    {
      var node := ready[|ready| - 1];
      LastIsChoice(n, forward, ordered, ready, remaining);
      AppendChoice(n, forward, ordered, node);
      assert node in Below(n) - Elements(ordered);
      SmallerSubset(Below(n) - Elements(ordered + [node]), Below(n) - Elements(ordered));
      ghost var before := ordered;
      assert node in ready;
      PopReady(ready);
      ready := ready[..|ready| - 1];
      ordered := ordered + [node];
      var start := PartitionPoint(reverse, (e: (nat, nat)) => e.0 < node);
      var end := PartitionPoint(reverse, (e: (nat, nat)) => e.0 <= node);
      SliceBounds(reverse, node, start, end);
      SliceIsUsers(forward, reverse, node, start, end);
      ready, remaining := Release(n, forward, before, node, reverse[start..end], ready, remaining);
    }
    ExhaustedWhenNoneReady(n, forward, ordered, remaining);
  }

  lemma PopReady(ready: seq<nat>)
    requires StrictlySorted(ready, NatGe) && ready != []
    ensures StrictlySorted(ready[..|ready| - 1], NatGe)
    ensures forall i :: i in ready[..|ready| - 1] <==> i in ready && i != ready[|ready| - 1]
  {
    var last := |ready| - 1;
    forall i | i in ready && i != ready[last] ensures i in ready[..last] {
      var k :| 0 <= k < |ready| && ready[k] == i;
      assert ready[..last][k] == i;
    }
  }

  method Reversed(forward: seq<(nat, nat)>) returns (reverse: seq<(nat, nat)>)
    requires StrictlySorted(forward, PairLe)
    ensures IsReverse(forward, reverse)
  {
    var swapped := seq(|forward|, k requires 0 <= k < |forward| => (forward[k].1, forward[k].0));
    NatOrders();
    SortDistinct(swapped, PairLe);
    SortKeepsElements(swapped, PairLe);
    reverse := Sort(swapped, PairLe);
    forall i: nat, t: nat ensures (t, i) in swapped <==> (i, t) in forward {
      if (i, t) in forward {
        var k :| 0 <= k < |forward| && forward[k] == (i, t);
        assert swapped[k] == (t, i);
      }
    }
  }

  method InitiallyReady(remaining: seq<nat>) returns (ready: seq<nat>)
    ensures StrictlySorted(ready, NatGe)
    ensures forall i: nat :: i in ready <==> i < |remaining| && remaining[i] == 0
  {
    var zeros: seq<nat> := [];
    var i := 0;
    while i < |remaining|
      invariant 0 <= i <= |remaining|
      invariant Distinct(zeros)
      invariant forall x: nat :: x in zeros <==> x < i && remaining[x] == 0
    {
      if remaining[i] == 0 {
        zeros := zeros + [i];
      }
      i := i + 1;
    }
    SortDistinct(zeros, NatGe);
    SortKeepsElements(zeros, NatGe);
    ready := Sort(zeros, NatGe);
  }

  /** Takes `node` off the counts of its users; those that reach zero become ready. */
  method Release(n: nat, forward: seq<(nat, nat)>, ghost before: seq<nat>, node: nat, users: seq<(nat, nat)>,
                 ready0: seq<nat>, remaining0: seq<nat>) returns (ready: seq<nat>, remaining: seq<nat>)
    requires EdgesBelow(n, forward) && |remaining0| == n && node < n && node !in before
    requires UsersOf(forward, users, node)
    requires Greedy(Below(n), Elements(forward), NatLe, before + [node])
    requires Elements(before + [node]) == Elements(before) + {node}
    requires StrictlySorted(ready0, NatGe)
    requires forall i: nat :: i < n ==> remaining0[i] == Left(forward, Elements(before), i)
    requires forall i: nat :: i in ready0 <==> i < n && i !in before + [node] && remaining0[i] == 0
    ensures Invariant(n, forward, before + [node], ready, remaining)
  {
    forall k | 0 <= k < |users| ensures Waits(n, before + [node], users[k].1, remaining0) {
      UserIsWaiting(n, forward, before, node, users, remaining0, k);
    }
    ready, remaining := Decrement(n, before + [node], node, users, ready0, remaining0);
    forall i: nat | i < n ensures remaining[i] == Left(forward, Elements(before + [node]), i) {
      LeftStep(forward, Elements(before), node, i);
    }
  }

  ghost predicate Waits(n: nat, done: seq<nat>, i: nat, remaining: seq<nat>) {
    i < n && i !in done && |remaining| == n && remaining[i] >= 1
  }

  method Decrement(n: nat, ghost done: seq<nat>, ghost node: nat, users: seq<(nat, nat)>,
                   ready0: seq<nat>, remaining0: seq<nat>) returns (ready: seq<nat>, remaining: seq<nat>)
    requires |remaining0| == n && StrictlySorted(ready0, NatGe)
    requires Distinct(users) && forall k :: 0 <= k < |users| ==> users[k].0 == node
    requires forall k :: 0 <= k < |users| ==> Waits(n, done, users[k].1, remaining0)
    requires forall i: nat :: i in ready0 <==> i < n && i !in done && remaining0[i] == 0
    ensures |remaining| == n && StrictlySorted(ready, NatGe)
    ensures forall i: nat :: i < n ==> remaining[i] + (if (node, i) in users then 1 else 0) == remaining0[i]
    ensures forall i: nat :: i in ready <==> i < n && i !in done && remaining[i] == 0
  {
    ready, remaining := ready0, remaining0;
    var j := 0;
    while j < |users|
      invariant 0 <= j <= |users| && |remaining| == n
      invariant StrictlySorted(ready, NatGe)
      invariant forall i: nat :: i < n ==> remaining[i] + (if (node, i) in users[..j] then 1 else 0) == remaining0[i]
      invariant forall i: nat :: i in ready <==> i < n && i !in done && remaining[i] == 0
    {
      var dependent := users[j].1;
      assert Waits(n, done, dependent, remaining0);
      assert users[j] == (node, dependent) && users[j] !in users[..j];
      assert users[..j + 1] == users[..j] + [users[j]];
      remaining := remaining[dependent := remaining[dependent] - 1];
      if remaining[dependent] == 0 {
        InsertReadySorted(ready, dependent);
        ready := InsertReady(ready, dependent);
      }
      j := j + 1;
    }
    assert users[..j] == users;
  }

  lemma NeedsOfPlaced(n: nat, forward: seq<(nat, nat)>, before: seq<nat>, node: nat, i: nat, t: nat)
    requires Greedy(Below(n), Elements(forward), NatLe, before + [node])
    requires i in before + [node] && (i, t) in forward
    ensures t in before
  {
    var order := before + [node];
    var k :| 0 <= k < |order| && order[k] == i;
    assert IsChoice(Below(n), Elements(forward), NatLe, order[..k], order[k]);
    assert order[..k] == before[..k];
  }

  /** So `checked_sub` never fails, and a user is never already placed or ready. */
  lemma UserIsWaiting(n: nat, forward: seq<(nat, nat)>, before: seq<nat>, node: nat, users: seq<(nat, nat)>,
                      remaining0: seq<nat>, j: nat)
    requires EdgesBelow(n, forward) && node !in before && UsersOf(forward, users, node) && j < |users|
    requires Greedy(Below(n), Elements(forward), NatLe, before + [node])
    requires |remaining0| == n && forall i: nat :: i < n ==> remaining0[i] == Left(forward, Elements(before), i)
    ensures Waits(n, before + [node], users[j].1, remaining0)
  {
    var i := users[j].1;
    assert users[j] == (node, i) && users[j] in users;
    assert (i, node) in forward;
    LeftStep(forward, Elements(before), node, i);
    if i in before + [node] {
      NeedsOfPlaced(n, forward, before, node, i, node);
      assert false;
    }
  }
}

/**
 One-shot subscriptions to generation changes (crates/ferrum2-core/src/generation.rs).
 Every lock region is one step. Generations and subscriber numbers are unbounded, so the wrap of
 next_subscriber is not part of this model.
 */
module Generations {
  import opened Prelude

  /** Two wakers wake each other's task exactly when they are equal. */
  datatype Waker = Waker(task: nat)

  datatype Signal = Signal(generation: nat, next: nat, subscribers: map<nat, Waker>)

  datatype Change = Change(baseline: nat, subscriber: Option<nat>, completed: Option<nat>)

  predicate NumbersBelow(s: Signal) {
    forall k :: k in s.subscribers ==> k < s.next
  }

  /** What polling does to both sides; the poll is ready exactly when the change ends up completed. */
  function AfterPoll(s: Signal, c: Change, waker: Waker): (Signal, Change) {
    if c.completed.Some? then (s, c)
    else if s.generation != c.baseline then
      (WithoutSubscriber(s, c), c.(subscriber := None, completed := Some(s.generation)))
    else if c.subscriber.Some? then (s.(subscribers := s.subscribers[c.subscriber.value := waker]), c)
    else (s.(next := s.next + 1, subscribers := s.subscribers[s.next := waker]), c.(subscriber := Some(s.next)))
  }

  function WithoutSubscriber(s: Signal, c: Change): Signal {
    if c.subscriber.Some? then s.(subscribers := s.subscribers - {c.subscriber.value}) else s
  }

  class GenerationSignal {
    var generation: nat
    var next: nat
    var subscribers: map<nat, Waker>

    function View(): Signal
      reads this
    {
      Signal(generation, next, subscribers)
    }

    constructor (generation: nat)
      ensures View() == Signal(generation, 0, map[])
    {
      this.generation, next, subscribers := generation, 0, map[];
    }

    method Watch() returns (change: GenerationChange)
      ensures fresh(change) && change.signal == this && change.View() == Change(generation, None, None)
    {
      change := WatchFrom(generation);
    }

    method WatchFrom(baseline: nat) returns (change: GenerationChange)
      ensures fresh(change) && change.signal == this && change.View() == Change(baseline, None, None)
    {
      change := new GenerationChange(this, baseline);
    }

    /** The wakers to wake, detached; none when the generation is the one already recorded. */
    method PrepareNotification(generation: nat) returns (wakers: map<nat, Waker>)
      modifies this
      ensures wakers == if old(this.generation) == generation then map[] else old(subscribers)
      ensures View() == if old(this.generation) == generation then old(View()) else Signal(generation, old(next), map[])
    {
      if this.generation == generation {
        return map[];
      }
      this.generation := generation;
      wakers := subscribers;
      subscribers := map[];
    }

    /** The least number from `next` on that nobody holds. */
    method NextSubscriber() returns (subscriber: nat)
      modifies this`next
      ensures subscriber !in subscribers && subscriber >= old(next) && next == subscriber + 1
      ensures forall k :: old(next) <= k < subscriber ==> k in subscribers
    {
      subscriber := next;
      next := next + 1;
      while subscriber in subscribers
        invariant subscriber >= old(next) && next == subscriber + 1
        invariant forall k :: old(next) <= k < subscriber ==> k in subscribers
        decreases set k | k in subscribers && k >= subscriber
      {
        ghost var left := set k | k in subscribers && k >= subscriber;
        assert subscriber in left;
        subscriber := next;
        next := next + 1;
      }
    }
  }

  class GenerationChange {
    const signal: GenerationSignal
    const baseline: nat
    var subscriber: Option<nat>
    var completed: Option<nat>

    function View(): Change
      reads this
    {
      Change(baseline, subscriber, completed)
    }

    constructor (signal: GenerationSignal, baseline: nat)
      ensures this.signal == signal && View() == Change(baseline, None, None)
    {
      this.signal, this.baseline, subscriber, completed := signal, baseline, None, None;
    }

    method Poll(waker: Waker) returns (ready: Option<nat>)
      requires NumbersBelow(signal.View())
      modifies this, signal
      ensures (signal.View(), View()) == AfterPoll(old(signal.View()), old(View()), waker)
      ensures ready == completed
    {
      if completed.Some? {
        return completed;
      }
      if signal.generation != baseline {
        if subscriber.Some? {
          signal.subscribers := signal.subscribers - {subscriber.value};
          subscriber := None;
        }
        completed := Some(signal.generation);
        return completed;
      }
      if subscriber.Some? {
        if subscriber.value in signal.subscribers {
          if signal.subscribers[subscriber.value] != waker {
            signal.subscribers := signal.subscribers[subscriber.value := waker];
          }
          assert signal.subscribers == old(signal.subscribers)[subscriber.value := waker];
        } else {
          signal.subscribers := signal.subscribers[subscriber.value := waker];
        }
      } else {
        assert signal.next !in signal.subscribers;
        var number := signal.NextSubscriber();
        signal.subscribers := signal.subscribers[number := waker];
        subscriber := Some(number);
      }
      return None;
    }

    method Drop()
      modifies this, signal
      ensures signal.View() == WithoutSubscriber(old(signal.View()), old(View()))
      ensures View() == old(View()).(subscriber := None)
    {
      if subscriber.None? {
        return;
      }
      signal.subscribers := signal.subscribers - {subscriber.value};
      subscriber := None;
    }
  }

  // Any number of subscriptions, publications and deliveries, interleaved

  /** A live subscription; `pending` is the waker of its last poll if that returned Pending, and `since`
      counts the publications before that poll. */
  datatype Watched = Watched(change: Change, pending: Option<Waker>, since: nat)

  /** One publication: the wakers it detached, and those not woken yet. */
  datatype Note = Note(registered: map<nat, Waker>, waiting: set<nat>)

  datatype World = World(
    signal: Signal,
    live: map<nat, Watched>,
    owner: map<nat, nat>,      // subscriber number -> the subscription it was given to
    created: nat,
    notes: seq<Note>,
    history: seq<nat>,         // every generation so far
    woken: multiset<(nat, nat)> // (publication, subscriber number)
  )

  datatype Step =
    | Watch(baseline: nat)
    | Poll(id: nat, waker: Waker)
    | Drop(gone: nat)
    | Publish(generation: nat)
    | Wake(note: nat, subscriber: nat)

  function Initial(generation: nat): World {
    World(Signal(generation, 0, map[]), map[], map[], 0, [], [generation], multiset{})
  }

  predicate Enabled(w: World, step: Step) {
    match step
    case Watch(_) => true
    case Poll(id, _) => id in w.live
    case Drop(id) => id in w.live
    case Publish(_) => true
    case Wake(note, subscriber) => note < |w.notes| && subscriber in w.notes[note].waiting
  }

  function Apply(w: World, step: Step): World
    requires Enabled(w, step)
  {
    match step
    case Watch(baseline) =>
      w.(live := w.live[w.created := Watched(Change(baseline, None, None), None, 0)], created := w.created + 1)
    case Poll(id, waker) =>
      var (signal, change) := AfterPoll(w.signal, w.live[id].change, waker);
      var pending := if change.completed.Some? then None else Some(waker);
      w.(signal := signal,
         live := w.live[id := Watched(change, pending, |w.notes|)],
         owner := if change.subscriber.Some? then w.owner[change.subscriber.value := id] else w.owner)
    case Drop(id) =>
      w.(signal := WithoutSubscriber(w.signal, w.live[id].change), live := w.live - {id})
    case Publish(generation) =>
      if generation == w.signal.generation then w
      else
        w.(signal := Signal(generation, w.signal.next, map[]),
           notes := w.notes + [Note(w.signal.subscribers, w.signal.subscribers.Keys)],
           history := w.history + [generation])
    case Wake(note, subscriber) =>
      var waiting := w.notes[note].waiting - {subscriber};
      w.(notes := w.notes[note := w.notes[note].(waiting := waiting)], woken := w.woken + multiset{(note, subscriber)})
  }

  predicate CanRun(w: World, steps: seq<Step>)
    decreases |steps|
  {
    steps == [] || (Enabled(w, steps[0]) && CanRun(Apply(w, steps[0]), steps[1..]))
  }

  function Run(w: World, steps: seq<Step>): World
    requires CanRun(w, steps)
    decreases |steps|
  {
    if steps == [] then w else Run(Apply(w, steps[0]), steps[1..])
  }

  // What every run keeps

  /** Each registered number belongs to one live subscription that saw Pending after the last publication. */
  ghost predicate RegisteredByLive(w: World) {
    forall k :: k in w.signal.subscribers ==>
      && k < w.signal.next && k in w.owner && w.owner[k] in w.live
      && w.live[w.owner[k]].change.subscriber == Some(k)
      && w.live[w.owner[k]].since == |w.notes|
  }

  ghost predicate NumbersOwned(w: World) {
    && (forall id :: id in w.live ==> id < w.created)
    && (forall id :: id in w.live && w.live[id].change.subscriber.Some? ==>
          var k := w.live[id].change.subscriber.value; k < w.signal.next && k in w.owner && w.owner[k] == id)
  }

  /** The change state goes with the last answer. */
  ghost predicate AnswersMatch(w: World, x: Watched) {
    && (x.change.subscriber.Some? <==> x.pending.Some?)
    && (x.change.completed.Some? ==>
          x.change.subscriber.None?
          && x.change.completed.value != x.change.baseline && x.change.completed.value in w.history)
  }

  /** Still registered with nothing published since, or carried by the first publication since. */
  ghost predicate NotLost(w: World, x: Watched) {
    x.change.subscriber.Some? && x.pending.Some? ==>
      var k := x.change.subscriber.value;
      && x.since <= |w.notes|
      && if x.since == |w.notes| then
           w.signal.generation == x.change.baseline
           && k in w.signal.subscribers && w.signal.subscribers[k] == x.pending.value
         else k in w.notes[x.since].registered && w.notes[x.since].registered[k] == x.pending.value
  }

  ghost predicate Watching(w: World) {
    forall id :: id in w.live ==> AnswersMatch(w, w.live[id]) && NotLost(w, w.live[id])
  }

  predicate Delivered(w: World, note: nat, subscriber: nat) {
    note < |w.notes| && subscriber in w.notes[note].registered && subscriber !in w.notes[note].waiting
  }

  /** Each detached waker is waiting or was woken once. */
  ghost predicate WokenOnce(w: World) {
    && (forall i :: 0 <= i < |w.notes| ==> w.notes[i].waiting <= w.notes[i].registered.Keys)
    && forall i: nat, k: nat :: w.woken[(i, k)] == if Delivered(w, i, k) then 1 else 0
  }

  ghost predicate Recorded(w: World) {
    |w.history| == |w.notes| + 1 && w.history[|w.notes|] == w.signal.generation
  }

  ghost predicate Inv(w: World) {
    Recorded(w) && NumbersOwned(w) && RegisteredByLive(w) && Watching(w) && WokenOnce(w)
  }

  lemma PollKeeps(w: World, id: nat, waker: Waker)
    requires Inv(w) && id in w.live
    ensures Inv(Apply(w, Poll(id, waker)))
  {
    var after := Apply(w, Poll(id, waker));
    forall other | other in after.live
      ensures AnswersMatch(after, after.live[other]) && NotLost(after, after.live[other])
    {
      assert AnswersMatch(w, w.live[other]) && NotLost(w, w.live[other]);
    }
    forall i: nat, k: nat
      ensures after.woken[(i, k)] == if Delivered(after, i, k) then 1 else 0
    {
      assert Delivered(after, i, k) == Delivered(w, i, k);
    }
  }

  lemma DropKeeps(w: World, id: nat)
    requires Inv(w) && id in w.live
    ensures Inv(Apply(w, Drop(id)))
  {
    var after := Apply(w, Drop(id));
    forall other | other in after.live
      ensures AnswersMatch(after, after.live[other]) && NotLost(after, after.live[other])
    {
      assert AnswersMatch(w, w.live[other]) && NotLost(w, w.live[other]);
    }
    forall i: nat, k: nat
      ensures after.woken[(i, k)] == if Delivered(after, i, k) then 1 else 0
    {
      assert Delivered(after, i, k) == Delivered(w, i, k);
    }
  }

  lemma WatchKeeps(w: World, baseline: nat)
    requires Inv(w)
    ensures Inv(Apply(w, Watch(baseline)))
  {
    var after := Apply(w, Watch(baseline));
    forall other | other in after.live
      ensures AnswersMatch(after, after.live[other]) && NotLost(after, after.live[other])
    {
      if other != w.created {
        assert AnswersMatch(w, w.live[other]) && NotLost(w, w.live[other]);
      }
    }
    forall i: nat, k: nat
      ensures after.woken[(i, k)] == if Delivered(after, i, k) then 1 else 0
    {
      assert Delivered(after, i, k) == Delivered(w, i, k);
    }
  }

  lemma PublishKeeps(w: World, generation: nat)
    requires Inv(w)
    ensures Inv(Apply(w, Publish(generation)))
  {
    var after := Apply(w, Publish(generation));
    forall other | other in after.live
      ensures AnswersMatch(after, after.live[other]) && NotLost(after, after.live[other])
    {
      assert AnswersMatch(w, w.live[other]) && NotLost(w, w.live[other]);
    }
    forall i: nat, k: nat
      ensures after.woken[(i, k)] == if Delivered(after, i, k) then 1 else 0
    {
      assert Delivered(after, i, k) == Delivered(w, i, k);
    }
  }

  lemma WakeKeeps(w: World, note: nat, subscriber: nat)
    requires Inv(w) && note < |w.notes| && subscriber in w.notes[note].waiting
    ensures Inv(Apply(w, Wake(note, subscriber)))
  {
    var after := Apply(w, Wake(note, subscriber));
    forall other | other in after.live
      ensures AnswersMatch(after, after.live[other]) && NotLost(after, after.live[other])
    {
      assert AnswersMatch(w, w.live[other]) && NotLost(w, w.live[other]);
    }
    forall i: nat, k: nat
      ensures after.woken[(i, k)] == if Delivered(after, i, k) then 1 else 0
    {
      assert Delivered(after, i, k) == (Delivered(w, i, k) || (i == note && k == subscriber));
      assert !Delivered(w, note, subscriber);
    }
  }

  lemma StepKeeps(w: World, step: Step)
    requires Inv(w) && Enabled(w, step)
    ensures Inv(Apply(w, step))
  {
    match step
    case Watch(baseline) => WatchKeeps(w, baseline);
    case Poll(id, waker) => PollKeeps(w, id, waker);
    case Drop(id) => DropKeeps(w, id);
    case Publish(generation) => PublishKeeps(w, generation);
    case Wake(note, subscriber) => WakeKeeps(w, note, subscriber);
  }

  lemma {:induction false} RunKeeps(w: World, steps: seq<Step>)
    requires Inv(w) && CanRun(w, steps)
    ensures Inv(Run(w, steps))
    decreases |steps|
  {
    if steps != [] {
      StepKeeps(w, steps[0]);
      RunKeeps(Apply(w, steps[0]), steps[1..]);
    }
  }

  /** After any interleaving, a subscription last seen pending is registered with its latest waker at an unchanged
      generation, or the first publication after that poll has woken that waker once or still has it to wake. */
  lemma NoChangeIsLost(start: nat, steps: seq<Step>, id: nat)
    requires CanRun(Initial(start), steps)
    requires var w := Run(Initial(start), steps); id in w.live && w.live[id].pending.Some?
    ensures var w := Run(Initial(start), steps);
      var x := w.live[id];
      && x.change.completed.None? && x.change.subscriber.Some? && x.since <= |w.notes|
      && var k := x.change.subscriber.value;
      && (x.since == |w.notes| ==>
            w.signal.generation == x.change.baseline
            && k in w.signal.subscribers && w.signal.subscribers[k] == x.pending.value)
      && (x.since < |w.notes| ==>
            && k in w.notes[x.since].registered && w.notes[x.since].registered[k] == x.pending.value
            && w.woken[(x.since, k)] == if k in w.notes[x.since].waiting then 0 else 1)
  {
    RunKeeps(Initial(start), steps);
    var w := Run(Initial(start), steps);
    assert AnswersMatch(w, w.live[id]) && NotLost(w, w.live[id]);
    var k := w.live[id].change.subscriber.value;
    assert w.woken[(w.live[id].since, k)] == if Delivered(w, w.live[id].since, k) then 1 else 0;
  }

  /** Only live subscriptions have a waker registered, and each at most one: dropping leaves none behind. */
  lemma OnlyLiveAreRegistered(start: nat, steps: seq<Step>, k: nat)
    requires CanRun(Initial(start), steps) && k in Run(Initial(start), steps).signal.subscribers
    ensures var w := Run(Initial(start), steps);
      exists id :: id in w.live && w.live[id].change.subscriber == Some(k)
        && w.live[id].pending == Some(w.signal.subscribers[k])
    ensures var w := Run(Initial(start), steps);
      forall a, b ::
        (a in w.live && b in w.live && w.live[a].change.subscriber == w.live[b].change.subscriber == Some(k)) ==> a == b
  {
    RunKeeps(Initial(start), steps);
    var w := Run(Initial(start), steps);
    var id := w.owner[k];
    assert AnswersMatch(w, w.live[id]) && NotLost(w, w.live[id]);
  }

  /** A live subscription not completed yet, made at the n-th generation. */
  ghost predicate MadeAt(w: World, id: nat, n: nat) {
    id in w.live && n < |w.history| && w.live[id].change.baseline == w.history[n] && w.live[id].change.completed.None?
  }

  /** Polling such a subscription tells correctly whether something was published after it exactly when, if something
      was, the generation is not back at the baseline; an answer then stays the same for good. */
  lemma ReadyExactly(start: nat, steps: seq<Step>, id: nat, n: nat, waker: Waker)
    requires CanRun(Initial(start), steps) && MadeAt(Run(Initial(start), steps), id, n)
    ensures var w := Run(Initial(start), steps);
      var polled := AfterPoll(w.signal, w.live[id].change, waker).1;
      && |w.history| == |w.notes| + 1
      && (polled.completed.Some? <==> w.signal.generation != w.history[n])
      && ((polled.completed.Some? <==> n < |w.notes|) <==> (n < |w.notes| ==> w.signal.generation != w.history[n]))
      && (polled.completed.Some? ==> polled.completed == Some(w.history[|w.history| - 1]))
      && forall later: Signal, other: Waker ::
           polled.completed.Some? ==> AfterPoll(later, polled, other) == (later, polled)
  {
    RunKeeps(Initial(start), steps);
  }

  /** With pairwise different generations a poll is ready exactly when something was published after the baseline. */
  lemma ReadyExactlyAfterAChange(start: nat, steps: seq<Step>, id: nat, n: nat, waker: Waker)
    requires CanRun(Initial(start), steps) && MadeAt(Run(Initial(start), steps), id, n)
    requires var w := Run(Initial(start), steps);
      forall i, j :: 0 <= i < j < |w.history| ==> w.history[i] != w.history[j]
    ensures var w := Run(Initial(start), steps);
      AfterPoll(w.signal, w.live[id].change, waker).1.completed.Some? <==> n < |w.notes|
  {
    RunKeeps(Initial(start), steps);
    ReadyExactly(start, steps, id, n, waker);
  }

  /** Nothing older than the current generation is published, as both publishers of the repository see to. */
  predicate Rising(w: World, steps: seq<Step>)
    requires CanRun(w, steps)
    decreases |steps|
  {
    steps == [] || (
      && (steps[0].Publish? ==> steps[0].generation >= w.signal.generation)
      && Rising(Apply(w, steps[0]), steps[1..]))
  }

  ghost predicate HistoryRises(w: World) {
    forall i, j :: 0 <= i < j < |w.history| ==> w.history[i] < w.history[j]
  }

  lemma {:induction false} RisingKeeps(w: World, steps: seq<Step>)
    requires Inv(w) && HistoryRises(w) && CanRun(w, steps) && Rising(w, steps)
    ensures HistoryRises(Run(w, steps))
    decreases |steps|
  {
    if steps != [] {
      StepKeeps(w, steps[0]);
      var after := Apply(w, steps[0]);
      forall i, j | 0 <= i < j < |after.history| ensures after.history[i] < after.history[j] {
        assert i < |w.notes| ==> w.history[i] < w.history[|w.notes|];
      }
      RisingKeeps(after, steps[1..]);
    }
  }

  /** For such publishers no poll ever misses a change. */
  lemma RisingNeverMisses(start: nat, steps: seq<Step>, id: nat, n: nat, waker: Waker)
    requires CanRun(Initial(start), steps) && Rising(Initial(start), steps)
    requires MadeAt(Run(Initial(start), steps), id, n)
    ensures var w := Run(Initial(start), steps);
      AfterPoll(w.signal, w.live[id].change, waker).1.completed.Some? <==> n < |w.notes|
  {
    RisingKeeps(Initial(start), steps);
    ReadyExactlyAfterAChange(start, steps, id, n, waker);
  }

  /** Once every detached waker was woken, a subscription pending since before a publication has had its latest
      waker woken exactly once for it. */
  lemma QuietMeansWoken(start: nat, steps: seq<Step>, id: nat)
    requires CanRun(Initial(start), steps)
    requires var w := Run(Initial(start), steps);
      && id in w.live && w.live[id].pending.Some? && w.live[id].since < |w.notes|
      && forall i :: 0 <= i < |w.notes| ==> w.notes[i].waiting == {}
    ensures var w := Run(Initial(start), steps);
      var x := w.live[id];
      && x.change.subscriber.Some? && w.woken[(x.since, x.change.subscriber.value)] == 1
  {
    NoChangeIsLost(start, steps, id);
  }

  /** A missed change: after generations 0, 2, 0 a subscription made at the first 0 stays pending. */
  lemma ReuseHidesAChange(waker: Waker)
    ensures var steps := [Watch(0), Publish(2), Publish(0)];
      && CanRun(Initial(0), steps)
      && var w := Run(Initial(0), steps);
         && |w.notes| == 2 && 0 in w.live && w.live[0].change.baseline == w.history[0]
         && AfterPoll(w.signal, w.live[0].change, waker).1.completed.None?
  {
    var a := Apply(Initial(0), Watch(0));
    var b := Apply(a, Publish(2));
    var c := Apply(b, Publish(0));
    assert [Watch(0), Publish(2), Publish(0)][1..] == [Publish(2), Publish(0)];
    assert [Publish(2), Publish(0)][1..] == [Publish(0)];
    assert [Publish(0)][1..] == [];
    assert Run(b, [Publish(0)]) == Run(c, []) == c;
    assert Run(a, [Publish(2), Publish(0)]) == c;
  }
}

/**
 Connection leases over all generations (crates/ferrum2-dashboard/src/connection.rs and
 crates/ferrum2-dashboard/src/lib.rs). Every lock region and every atomic access is one step; counters are unbounded.
 */
module Leases {
  import opened Prelude
  import opened Registries

  datatype Direction = Upload | Download

  /** Begun has its generation and number; Active is admitted; Finishing has taken the finished flag. */
  datatype Phase = Begun | Active | Finishing | Sealed | Gone

  datatype Lease = Lease(
    generation: nat, protocol: Protocol, phase: Phase, tracked: bool, epoch: nat, cancelled: bool,
    sent: nat, received: nat, final: Option<(nat, nat)>)

  datatype Generation = Generation(registry: Registry, omitted: nat, epoch: nat, sent: nat, received: nat)

  datatype Stage = Checked | RecordAdded | Done

  datatype Transfer = Transfer(lease: nat, direction: Direction, bytes: nat, stage: Stage)

  datatype World = World(generations: seq<Generation>, leases: seq<Lease>, transfers: seq<Transfer>, clock: nat)

  datatype Step =
    | StartGeneration
    | Begin(protocol: Protocol)
    | Admit(id: nat)
    | Observe(id: nat, direction: Direction, bytes: nat)
    | AddToRecord(transfer: nat)
    | AddToTotal(transfer: nat)
    | Finish(id: nat)
    | Seal(id: nat)
    | Retire(id: nat)
    | Sample(sampled: nat, now: nat)
    | Close(ids: seq<nat>)
    | CloseAll
    | Tick(now: nat)

  const NEW_GENERATION: Generation := Generation(EMPTY, 0, 0, 0, 0)

  const INITIAL: World := World([NEW_GENERATION], [], [], 0)

  predicate Unretired(l: Lease) {
    l.phase.Active? || l.phase.Finishing? || l.phase.Sealed?
  }

  predicate Sound(w: World) {
    && w.generations != []
    && (forall i :: 0 <= i < |w.leases| ==> w.leases[i].generation < |w.generations|)
    && (forall t :: 0 <= t < |w.transfers| ==> w.transfers[t].lease < |w.leases| && w.transfers[t].bytes != 0)
  }

  predicate Enabled(w: World, step: Step)
    requires Sound(w)
  {
    match step
    case Admit(id) => id < |w.leases| && w.leases[id].phase.Begun?
    case Observe(id, _, bytes) => id < |w.leases| && w.leases[id].phase.Active? && bytes != 0
    case AddToRecord(t) => t < |w.transfers| && w.transfers[t].stage.Checked?
    case AddToTotal(t) => t < |w.transfers| && w.transfers[t].stage.RecordAdded?
    case Finish(id) => id < |w.leases| && w.leases[id].phase.Active?
    case Seal(id) => id < |w.leases| && w.leases[id].phase.Finishing?
    case Retire(id) =>
      && id < |w.leases| && w.leases[id].phase.Sealed?
      && var g := w.generations[w.leases[id].generation];
         CanRetire(g.registry, w.leases[id].protocol) && (w.leases[id].tracked || g.omitted > 0)
    case Sample(g, now) => g < |w.generations| && now <= w.clock
    case Tick(now) => w.clock <= now
    case _ => true
  }

  function Current(w: World): nat
    requires Sound(w)
  {
    |w.generations| - 1
  }

  function WithLease(w: World, id: nat, l: Lease): World
    requires id < |w.leases|
  {
    w.(leases := w.leases[id := l])
  }

  function WithGeneration(w: World, g: nat, generation: Generation): World
    requires g < |w.generations|
  {
    w.(generations := w.generations[g := generation])
  }

  function Counted(l: Lease, d: Direction, bytes: nat): Lease {
    if d.Upload? then l.(sent := l.sent + bytes) else l.(received := l.received + bytes)
  }

  function CountedTotal(g: Generation, d: Direction, bytes: nat): Generation {
    if d.Upload? then g.(sent := g.sent + bytes) else g.(received := g.received + bytes)
  }

  predicate Addressed(w: World, ids: seq<nat>, id: nat)
    requires Sound(w)
  {
    var r := w.generations[Current(w)].registry;
    id in ids && (id in r.live || id in r.cancellation)
  }

  function Signalled(w: World, ids: seq<nat>): (r: seq<Lease>)
    requires Sound(w)
    ensures |r| == |w.leases|
  {
    seq(|w.leases|, i requires 0 <= i < |w.leases| =>
      if Addressed(w, ids, i) then w.leases[i].(cancelled := true) else w.leases[i])
  }

  function Apply(w: World, step: Step): World
    requires Sound(w) && Enabled(w, step)
  {
    match step
    case StartGeneration => w.(generations := w.generations + [NEW_GENERATION])
    case Begin(protocol) =>
      w.(leases := w.leases + [Lease(Current(w), protocol, Begun, false, 0, false, 0, 0, None)])
    case Admit(id) =>
      var l := w.leases[id];
      var g := w.generations[l.generation];
      var tracked := |g.registry.live| < LIVE_LIMIT;
      WithGeneration(
        WithLease(w, id, l.(phase := Active, tracked := tracked, epoch := g.epoch)), l.generation,
        g.(registry := Admitted(g.registry, id, l.protocol), omitted := g.omitted + if tracked then 0 else 1))
    case Observe(id, direction, bytes) => w.(transfers := w.transfers + [Transfer(id, direction, bytes, Checked)])
    case AddToRecord(t) =>
      var x := w.transfers[t];
      WithLease(w, x.lease, Counted(w.leases[x.lease], x.direction, x.bytes))
        .(transfers := w.transfers[t := x.(stage := RecordAdded)])
    case AddToTotal(t) =>
      var x := w.transfers[t];
      var g := w.leases[x.lease].generation;
      WithGeneration(w, g, CountedTotal(w.generations[g], x.direction, x.bytes))
        .(transfers := w.transfers[t := x.(stage := Done)])
    case Finish(id) => WithLease(w, id, w.leases[id].(phase := Finishing))
    case Seal(id) =>
      var l := w.leases[id];
      WithLease(w, id, l.(phase := Sealed, final := if l.tracked then Some((l.sent, l.received)) else None))
    case Retire(id) =>
      var l := w.leases[id];
      var g := w.generations[l.generation];
      WithGeneration(
        WithLease(w, id, l.(phase := Gone)), l.generation,
        g.(registry := Retired(g.registry, id, l.protocol, l.tracked, w.clock),
           omitted := if l.tracked then g.omitted else g.omitted - 1))
    case Sample(sampled, now) =>
      var g := w.generations[sampled];
      WithGeneration(w, sampled, g.(registry := g.registry.(history := Pruned(g.registry.history, now))))
    case Close(ids) => w.(leases := Signalled(w, ids))
    case CloseAll =>
      var g := w.generations[Current(w)];
      WithGeneration(w, Current(w), g.(epoch := g.epoch + 1))
    case Tick(now) => w.(clock := now)
  }

  // What a registry has to do with the leases

  predicate IsLive(l: Lease, g: nat) {
    l.generation == g && Unretired(l) && l.tracked
  }

  predicate IsHidden(l: Lease, g: nat) {
    l.generation == g && Unretired(l) && !l.tracked
  }

  predicate Speaks(l: Lease, g: nat, p: Protocol) {
    l.generation == g && Unretired(l) && l.protocol == p
  }

  ghost function LiveIn(leases: seq<Lease>, g: nat): set<nat> {
    set i: nat | i < |leases| && IsLive(leases[i], g)
  }

  ghost function HiddenIn(leases: seq<Lease>, g: nat): set<nat> {
    set i: nat | i < |leases| && IsHidden(leases[i], g)
  }

  ghost function SpeakingIn(leases: seq<Lease>, g: nat, p: Protocol): set<nat> {
    set i: nat | i < |leases| && Speaks(leases[i], g, p)
  }

  ghost predicate RowsMatch(leases: seq<Lease>, g: nat, x: Generation) {
    && x.registry.live == LiveIn(leases, g)
    && x.omitted == |HiddenIn(leases, g)|
    && x.registry.active == |x.registry.live| + x.omitted
    && x.registry.cancellation <= LiveIn(leases, g) + HiddenIn(leases, g)
  }

  ghost predicate ProtocolsMatch(leases: seq<Lease>, g: nat, x: Generation) {
    x.registry.tcp == |SpeakingIn(leases, g, Tcp)| && x.registry.udp == |SpeakingIn(leases, g, Udp)|
  }

  ghost predicate CountsMatch(leases: seq<Lease>, g: nat, x: Generation) {
    RowsMatch(leases, g, x) && ProtocolsMatch(leases, g, x)
  }

  ghost predicate WithinLimits(r: Registry) {
    |r.live| <= LIVE_LIMIT && |r.cancellation| <= CANCELLATION_LIMIT && |r.history| <= HISTORY_LIMIT
  }

  /** A history row belongs to a lease that is gone and sealed. */
  ghost predicate RowOk(leases: seq<Lease>, g: nat, row: Row, clock: nat) {
    && row.id < |leases| && row.at <= clock
    && var l := leases[row.id]; l.generation == g && l.phase.Gone? && l.tracked && l.final.Some?
  }

  ghost predicate HistoryOk(leases: seq<Lease>, g: nat, history: seq<Row>, clock: nat) {
    InOrder(history) && forall row :: row in history ==> RowOk(leases, g, row, clock)
  }

  ghost predicate LeaseOk(l: Lease, epoch: nat) {
    && (l.final.Some? <==> l.tracked && (l.phase.Sealed? || l.phase.Gone?))
    && (l.final.Some? ==> l.final.value.0 <= l.sent && l.final.value.1 <= l.received)
    && l.epoch <= epoch
    && (l.phase.Begun? ==> !l.tracked && !l.cancelled)
  }

  ghost predicate GenerationOk(w: World, g: nat)
    requires g < |w.generations|
  {
    var x := w.generations[g];
    CountsMatch(w.leases, g, x) && WithinLimits(x.registry) && HistoryOk(w.leases, g, x.registry.history, w.clock)
  }

  ghost predicate LeasesOk(w: World)
    requires Sound(w)
  {
    forall i :: 0 <= i < |w.leases| ==> LeaseOk(w.leases[i], w.generations[w.leases[i].generation].epoch)
  }

  ghost predicate RegistriesOk(w: World) {
    forall g: nat :: g < |w.generations| ==> GenerationOk(w, g)
  }

  // Steps that leave every lease where it stands

  predicate SameStanding(a: Lease, b: Lease) {
    && a.generation == b.generation && a.protocol == b.protocol && a.tracked == b.tracked
    && Unretired(a) == Unretired(b) && a.phase.Gone? == b.phase.Gone? && (a.final.Some? ==> b.final.Some?)
  }

  ghost predicate Standing(a: seq<Lease>, b: seq<Lease>) {
    |a| == |b| && forall i :: 0 <= i < |a| ==> SameStanding(a[i], b[i])
  }

  lemma StandingKeeps(a: seq<Lease>, b: seq<Lease>, g: nat, x: Generation, clock: nat)
    requires Standing(a, b)
    ensures CountsMatch(a, g, x) ==> CountsMatch(b, g, x)
    ensures HistoryOk(a, g, x.registry.history, clock) ==> HistoryOk(b, g, x.registry.history, clock)
  {
    assert LiveIn(a, g) == LiveIn(b, g);
    assert HiddenIn(a, g) == HiddenIn(b, g);
    assert SpeakingIn(a, g, Tcp) == SpeakingIn(b, g, Tcp);
    assert SpeakingIn(a, g, Udp) == SpeakingIn(b, g, Udp);
    if HistoryOk(a, g, x.registry.history, clock) {
      forall row | row in x.registry.history ensures RowOk(b, g, row, clock) { assert RowOk(a, g, row, clock); }
    }
  }

  // Sums of bytes

  function Total(values: seq<nat>): nat {
    if values == [] then 0 else Total(values[..|values| - 1]) + values[|values| - 1]
  }

  lemma TotalSnoc(values: seq<nat>, v: nat)
    ensures Total(values + [v]) == Total(values) + v
  {
    assert (values + [v])[..|values|] == values;
  }

  lemma {:induction false} TotalUpdate(values: seq<nat>, i: nat, v: nat)
    requires i < |values|
    ensures Total(values[i := v]) + values[i] == Total(values) + v
  {
    var last := |values| - 1;
    if i == last {
      assert values[i := v][..last] == values[..last];
    } else {
      TotalUpdate(values[..last], i, v);
      assert values[i := v][..last] == values[..last][i := v];
    }
  }

  function CounterOf(l: Lease, d: Direction): nat {
    if d.Upload? then l.sent else l.received
  }

  function TotalOf(g: Generation, d: Direction): nat {
    if d.Upload? then g.sent else g.received
  }

  /** The leases' own counters, zero for those of other generations. */
  function Counters(leases: seq<Lease>, g: nat, d: Direction): (r: seq<nat>)
    ensures |r| == |leases|
  {
    seq(|leases|, i requires 0 <= i < |leases| => if leases[i].generation == g then CounterOf(leases[i], d) else 0)
  }

  function PartWay(x: Transfer, leases: seq<Lease>, g: nat, d: Direction): nat {
    if x.stage.RecordAdded? && x.direction == d && x.lease < |leases| && leases[x.lease].generation == g then
      x.bytes
    else 0
  }

  /** Bytes added to a record and not yet to its generation. */
  function InFlight(transfers: seq<Transfer>, leases: seq<Lease>, g: nat, d: Direction): (r: seq<nat>)
    ensures |r| == |transfers|
  {
    seq(|transfers|, t requires 0 <= t < |transfers| => PartWay(transfers[t], leases, g, d))
  }

  ghost predicate BytesMatch(w: World, g: nat, d: Direction)
    requires g < |w.generations|
  {
    Total(Counters(w.leases, g, d)) == TotalOf(w.generations[g], d) + Total(InFlight(w.transfers, w.leases, g, d))
  }

  ghost predicate BytesOk(w: World) {
    forall g: nat, d :: g < |w.generations| ==> BytesMatch(w, g, d)
  }

  ghost predicate Inv(w: World) {
    Sound(w) && LeasesOk(w) && RegistriesOk(w) && BytesOk(w)
  }

  ghost predicate CanRun(w: World, steps: seq<Step>)
    decreases |steps|
  {
    steps == [] || (Sound(w) && Enabled(w, steps[0]) && CanRun(Apply(w, steps[0]), steps[1..]))
  }

  ghost function Run(w: World, steps: seq<Step>): World
    requires CanRun(w, steps)
    decreases |steps|
  {
    if steps == [] then w else Run(Apply(w, steps[0]), steps[1..])
  }

  // Registries over one step

  lemma AddOne(s: set<nat>, x: nat)
    requires x !in s
    ensures |s + {x}| == |s| + 1
  {
  }

  lemma RemoveOne(s: set<nat>, x: nat)
    requires x in s
    ensures |s - {x}| + 1 == |s|
  {
    assert s == (s - {x}) + {x};
  }

  lemma SpeakersJoin(leases: seq<Lease>, id: nat, l: Lease, p: Protocol)
    requires id < |leases| && l.generation == leases[id].generation && l.protocol == leases[id].protocol
    requires Unretired(l) && !Unretired(leases[id])
    ensures |SpeakingIn(leases[id := l], l.generation, p)| ==
      |SpeakingIn(leases, l.generation, p)| + if l.protocol == p then 1 else 0
  {
    var before, after := SpeakingIn(leases, l.generation, p), SpeakingIn(leases[id := l], l.generation, p);
    if l.protocol == p {
      assert after == before + {id};
      AddOne(before, id);
    } else {
      assert after == before;
    }
  }

  lemma SpeakersLeave(leases: seq<Lease>, id: nat, l: Lease, p: Protocol)
    requires id < |leases| && l.generation == leases[id].generation && l.protocol == leases[id].protocol
    requires !Unretired(l) && Unretired(leases[id])
    ensures |SpeakingIn(leases, l.generation, p)| ==
      |SpeakingIn(leases[id := l], l.generation, p)| + if l.protocol == p then 1 else 0
  {
    var before, after := SpeakingIn(leases, l.generation, p), SpeakingIn(leases[id := l], l.generation, p);
    if l.protocol == p {
      assert after == before - {id};
      RemoveOne(before, id);
    } else {
      assert after == before;
    }
  }

  lemma RowsJoin(leases: seq<Lease>, id: nat, l: Lease)
    requires id < |leases| && l.generation == leases[id].generation && Unretired(l) && !Unretired(leases[id])
    ensures id !in LiveIn(leases, l.generation) && id !in HiddenIn(leases, l.generation)
    ensures LiveIn(leases[id := l], l.generation) == LiveIn(leases, l.generation) + if l.tracked then {id} else {}
    ensures HiddenIn(leases[id := l], l.generation) == HiddenIn(leases, l.generation) + if l.tracked then {} else {id}
  {
  }

  lemma RowsLeave(leases: seq<Lease>, id: nat, l: Lease)
    requires id < |leases| && l.generation == leases[id].generation && !Unretired(l) && Unretired(leases[id])
    ensures LiveIn(leases[id := l], l.generation) == LiveIn(leases, l.generation) - {id}
    ensures HiddenIn(leases[id := l], l.generation) == HiddenIn(leases, l.generation) - {id}
    ensures id in LiveIn(leases, l.generation) <==> leases[id].tracked
    ensures id in HiddenIn(leases, l.generation) <==> !leases[id].tracked
  {
  }

  /** A lease of one generation does not show in another's registry. */
  lemma OthersKept(leases: seq<Lease>, id: nat, l: Lease, g: nat, x: Generation)
    requires id < |leases| && l.generation == leases[id].generation != g && CountsMatch(leases, g, x)
    ensures CountsMatch(leases[id := l], g, x)
  {
    var after := leases[id := l];
    assert LiveIn(after, g) == LiveIn(leases, g);
    assert HiddenIn(after, g) == HiddenIn(leases, g);
    assert SpeakingIn(after, g, Tcp) == SpeakingIn(leases, g, Tcp);
    assert SpeakingIn(after, g, Udp) == SpeakingIn(leases, g, Udp);
  }

  function AdmittedTo(x: Generation, id: nat, p: Protocol): Generation {
    x.(registry := Admitted(x.registry, id, p), omitted := x.omitted + if |x.registry.live| < LIVE_LIMIT then 0 else 1)
  }

  lemma AdmitKeepsRows(leases: seq<Lease>, id: nat, l: Lease, x: Generation)
    requires id < |leases| && l.generation == leases[id].generation
    requires Unretired(l) && !Unretired(leases[id]) && l.tracked == (|x.registry.live| < LIVE_LIMIT)
    requires RowsMatch(leases, l.generation, x)
    ensures RowsMatch(leases[id := l], l.generation, AdmittedTo(x, id, l.protocol))
  {
    RowsJoin(leases, id, l);
    if l.tracked {
      AddOne(LiveIn(leases, l.generation), id);
    } else {
      AddOne(HiddenIn(leases, l.generation), id);
    }
  }

  lemma AdmitKeepsCounts(leases: seq<Lease>, id: nat, l: Lease, x: Generation)
    requires id < |leases| && l.generation == leases[id].generation && l.protocol == leases[id].protocol
    requires Unretired(l) && !Unretired(leases[id]) && l.tracked == (|x.registry.live| < LIVE_LIMIT)
    requires CountsMatch(leases, l.generation, x)
    ensures CountsMatch(leases[id := l], l.generation, AdmittedTo(x, id, l.protocol))
  {
    AdmitKeepsRows(leases, id, l, x);
    SpeakersJoin(leases, id, l, Tcp);
    SpeakersJoin(leases, id, l, Udp);
  }

  lemma AdmitKeepsLimits(r: Registry, id: nat, p: Protocol)
    requires WithinLimits(r)
    ensures WithinLimits(Admitted(r, id, p))
  {
    if id !in r.live { AddOne(r.live, id); } else { assert r.live + {id} == r.live; }
    if id !in r.cancellation { AddOne(r.cancellation, id); } else { assert r.cancellation + {id} == r.cancellation; }
  }

  function RetiredFrom(x: Generation, id: nat, p: Protocol, tracked: bool, now: nat): Generation
    requires CanRetire(x.registry, p) && (tracked || x.omitted > 0)
  {
    x.(registry := Retired(x.registry, id, p, tracked, now), omitted := if tracked then x.omitted else x.omitted - 1)
  }

  lemma RetireKeepsCounts(leases: seq<Lease>, id: nat, l: Lease, x: Generation, now: nat)
    requires id < |leases| && l.generation == leases[id].generation && l.protocol == leases[id].protocol
    requires !Unretired(l) && Unretired(leases[id]) && l.tracked == leases[id].tracked
    requires CanRetire(x.registry, l.protocol) && (l.tracked || x.omitted > 0)
    requires CountsMatch(leases, l.generation, x)
    ensures CountsMatch(leases[id := l], l.generation, RetiredFrom(x, id, l.protocol, l.tracked, now))
  {
    RowsLeave(leases, id, l);
    SpeakersLeave(leases, id, l, Tcp);
    SpeakersLeave(leases, id, l, Udp);
    if l.tracked {
      RemoveOne(LiveIn(leases, l.generation), id);
      assert HiddenIn(leases, l.generation) - {id} == HiddenIn(leases, l.generation);
    } else {
      RemoveOne(HiddenIn(leases, l.generation), id);
      assert LiveIn(leases, l.generation) - {id} == LiveIn(leases, l.generation);
    }
  }

  lemma RetireKeepsHistory(leases: seq<Lease>, id: nat, l: Lease, r: Registry, now: nat)
    requires id < |leases| && l.generation == leases[id].generation && l.phase.Gone? && !leases[id].phase.Gone?
    requires CanRetire(r, l.protocol) && WithinLimits(r) && HistoryOk(leases, l.generation, r.history, now)
    requires l.tracked ==> l.final.Some?
    ensures var after := Retired(r, id, l.protocol, l.tracked, now);
      WithinLimits(after) && HistoryOk(leases[id := l], l.generation, after.history, now)
  {
    var after := Retired(r, id, l.protocol, l.tracked, now);
    FewerFit(r.live, id);
    FewerFit(r.cancellation, id);
    forall row | row in r.history ensures row.at <= now && row.id != id {
      assert RowOk(leases, l.generation, row, now);
    }
    if l.tracked {
      ArchivedKeeps(r.history, Row(now, id));
    }
    forall row | row in after.history ensures RowOk(leases[id := l], l.generation, row, now) {
      if row != Row(now, id) || !l.tracked { assert RowOk(leases, l.generation, row, now); }
    }
  }

  lemma FewerFit(s: set<nat>, x: nat)
    ensures |s - {x}| <= |s|
  {
    if x in s { RemoveOne(s, x); } else { assert s - {x} == s; }
  }

  lemma HistoryElsewhere(leases: seq<Lease>, id: nat, l: Lease, g: nat, history: seq<Row>, clock: nat)
    requires id < |leases| && HistoryOk(leases, g, history, clock) && !leases[id].phase.Gone?
    ensures HistoryOk(leases[id := l], g, history, clock)
  {
    forall row | row in history ensures RowOk(leases[id := l], g, row, clock) { assert RowOk(leases, g, row, clock); }
  }

  /** Admission and retirement keep every registry in agreement with its leases. */
  lemma AdmitKeepsRegistries(w: World, id: nat)
    requires Inv(w) && Enabled(w, Admit(id))
    ensures RegistriesOk(Apply(w, Admit(id)))
  {
    var after := Apply(w, Admit(id));
    var l := after.leases[id];
    forall g: nat | g < |after.generations| ensures GenerationOk(after, g) {
      assert GenerationOk(w, g);
      HistoryElsewhere(w.leases, id, l, g, w.generations[g].registry.history, w.clock);
      if g == l.generation {
        AdmitKeepsCounts(w.leases, id, l, w.generations[g]);
        AdmitKeepsLimits(w.generations[g].registry, id, l.protocol);
      } else {
        OthersKept(w.leases, id, l, g, w.generations[g]);
      }
    }
  }

  lemma RetireKeepsRegistries(w: World, id: nat)
    requires Inv(w) && Enabled(w, Retire(id))
    ensures RegistriesOk(Apply(w, Retire(id)))
  {
    var after := Apply(w, Retire(id));
    var l := after.leases[id];
    assert LeaseOk(w.leases[id], w.generations[l.generation].epoch);
    forall g: nat | g < |after.generations| ensures GenerationOk(after, g) {
      assert GenerationOk(w, g);
      if g == l.generation {
        RetireKeepsCounts(w.leases, id, l, w.generations[g], w.clock);
        RetireKeepsHistory(w.leases, id, l, w.generations[g].registry, w.clock);
      } else {
        OthersKept(w.leases, id, l, g, w.generations[g]);
        HistoryElsewhere(w.leases, id, l, g, w.generations[g].registry.history, w.clock);
      }
    }
  }

  predicate ChangesRegistry(step: Step) {
    step.Admit? || step.Retire? || step.StartGeneration? || step.Begin? || step.Sample? || step.Tick?
  }

  lemma StandingKeepsRegistries(w: World, step: Step)
    requires Inv(w) && Enabled(w, step) && !ChangesRegistry(step)
    ensures RegistriesOk(Apply(w, step))
  {
    var after := Apply(w, step);
    assert Standing(w.leases, after.leases);
    forall g: nat | g < |after.generations| ensures GenerationOk(after, g) {
      assert GenerationOk(w, g);
      StandingKeeps(w.leases, after.leases, g, w.generations[g], w.clock);
    }
  }

  lemma AppendKeeps(leases: seq<Lease>, l: Lease, g: nat, x: Generation, clock: nat)
    requires l.phase.Begun?
    ensures CountsMatch(leases, g, x) ==> CountsMatch(leases + [l], g, x)
    ensures HistoryOk(leases, g, x.registry.history, clock) ==> HistoryOk(leases + [l], g, x.registry.history, clock)
  {
    var after := leases + [l];
    assert LiveIn(after, g) == LiveIn(leases, g);
    assert HiddenIn(after, g) == HiddenIn(leases, g);
    assert SpeakingIn(after, g, Tcp) == SpeakingIn(leases, g, Tcp);
    assert SpeakingIn(after, g, Udp) == SpeakingIn(leases, g, Udp);
    if HistoryOk(leases, g, x.registry.history, clock) {
      forall row | row in x.registry.history ensures RowOk(after, g, row, clock) {
        assert RowOk(leases, g, row, clock);
      }
    }
  }

  lemma BeginKeepsRegistries(w: World, p: Protocol)
    requires Inv(w)
    ensures RegistriesOk(Apply(w, Begin(p)))
  {
    var after := Apply(w, Begin(p));
    forall g: nat | g < |after.generations| ensures GenerationOk(after, g) {
      assert GenerationOk(w, g);
      AppendKeeps(w.leases, after.leases[|w.leases|], g, w.generations[g], w.clock);
    }
  }

  lemma StartKeepsRegistries(w: World)
    requires Inv(w)
    ensures RegistriesOk(Apply(w, StartGeneration))
  {
    var after := Apply(w, StartGeneration);
    forall g: nat | g < |after.generations| ensures GenerationOk(after, g) {
      if g < |w.generations| {
        assert GenerationOk(w, g);
      } else {
        assert LiveIn(w.leases, g) == {} && HiddenIn(w.leases, g) == {};
        assert SpeakingIn(w.leases, g, Tcp) == {} && SpeakingIn(w.leases, g, Udp) == {};
      }
    }
  }

  lemma TimeKeepsRegistries(w: World, step: Step)
    requires Inv(w) && Enabled(w, step) && (step.Sample? || step.Tick?)
    ensures RegistriesOk(Apply(w, step))
  {
    var after := Apply(w, step);
    forall g: nat | g < |after.generations| ensures GenerationOk(after, g) {
      assert GenerationOk(w, g);
      var history := w.generations[g].registry.history;
      if step.Sample? {
        PrunedExactly(history, step.now);
      }
      forall row | row in after.generations[g].registry.history ensures RowOk(w.leases, g, row, after.clock) {
        assert row in history;
        assert RowOk(w.leases, g, row, w.clock);
      }
    }
  }

  lemma StepKeepsRegistries(w: World, step: Step)
    requires Inv(w) && Enabled(w, step)
    ensures RegistriesOk(Apply(w, step))
  {
    match step
    case Admit(id) => AdmitKeepsRegistries(w, id);
    case Retire(id) => RetireKeepsRegistries(w, id);
    case Begin(p) => BeginKeepsRegistries(w, p);
    case StartGeneration => StartKeepsRegistries(w);
    case Sample(_, _) => TimeKeepsRegistries(w, step);
    case Tick(_) => TimeKeepsRegistries(w, step);
    case _ => StandingKeepsRegistries(w, step);
  }

  lemma StepKeepsLeases(w: World, step: Step)
    requires Inv(w) && Enabled(w, step)
    ensures Sound(Apply(w, step)) && LeasesOk(Apply(w, step))
  {
    var after := Apply(w, step);
    if step.Close? {
      assert GenerationOk(w, Current(w));
    }
    forall i | 0 <= i < |after.leases|
      ensures after.leases[i].generation < |after.generations|
      ensures LeaseOk(after.leases[i], after.generations[after.leases[i].generation].epoch)
    {
      if i < |w.leases| {
        assert LeaseOk(w.leases[i], w.generations[w.leases[i].generation].epoch);
      }
    }
  }

  // Bytes over one step

  lemma RecordGrows(leases: seq<Lease>, id: nat, g: nat, d: Direction, way: Direction, bytes: nat)
    requires id < |leases|
    ensures Total(Counters(leases[id := Counted(leases[id], way, bytes)], g, d)) ==
      Total(Counters(leases, g, d)) + if leases[id].generation == g && way == d then bytes else 0
  {
    var before, after := Counters(leases, g, d), Counters(leases[id := Counted(leases[id], way, bytes)], g, d);
    assert after == before[id := after[id]];
    TotalUpdate(before, id, after[id]);
  }

  lemma FlightGrows(transfers: seq<Transfer>, leases: seq<Lease>, t: nat, g: nat, d: Direction)
    requires t < |transfers| && transfers[t].stage.Checked? && transfers[t].lease < |leases|
    ensures Total(InFlight(transfers[t := transfers[t].(stage := RecordAdded)], leases, g, d)) ==
      Total(InFlight(transfers, leases, g, d))
      + if leases[transfers[t].lease].generation == g && transfers[t].direction == d then transfers[t].bytes else 0
  {
    var before := InFlight(transfers, leases, g, d);
    var after := InFlight(transfers[t := transfers[t].(stage := RecordAdded)], leases, g, d);
    assert after == before[t := after[t]];
    TotalUpdate(before, t, after[t]);
  }

  lemma AddToRecordKeepsBytes(w: World, t: nat, g: nat, d: Direction)
    requires Inv(w) && Enabled(w, AddToRecord(t)) && g < |w.generations|
    ensures BytesMatch(Apply(w, AddToRecord(t)), g, d)
  {
    var after := Apply(w, AddToRecord(t));
    var x := w.transfers[t];
    assert BytesMatch(w, g, d);
    RecordGrows(w.leases, x.lease, g, d, x.direction, x.bytes);
    FlightGrows(w.transfers, w.leases, t, g, d);
    InFlightKept(after.transfers, w.leases, after.leases, g, d);
  }

  lemma AddToTotalKeepsBytes(w: World, t: nat, g: nat, d: Direction)
    requires Inv(w) && Enabled(w, AddToTotal(t)) && g < |w.generations|
    ensures BytesMatch(Apply(w, AddToTotal(t)), g, d)
  {
    var after := Apply(w, AddToTotal(t));
    assert BytesMatch(w, g, d);
    var flight := InFlight(w.transfers, w.leases, g, d);
    assert InFlight(after.transfers, after.leases, g, d) == flight[t := 0];
    TotalUpdate(flight, t, 0);
  }

  /** Appending a lease or a transfer, or opening a generation, adds nothing to either side. */
  lemma AppendKeepsBytes(w: World, step: Step, g: nat, d: Direction)
    requires Inv(w) && Enabled(w, step) && (step.Begin? || step.Observe? || step.StartGeneration?)
    requires g < |Apply(w, step).generations|
    ensures BytesMatch(Apply(w, step), g, d)
  {
    var after := Apply(w, step);
    if g < |w.generations| {
      assert BytesMatch(w, g, d);
    } else {
      AllZero(Counters(w.leases, g, d));
      AllZero(InFlight(w.transfers, w.leases, g, d));
    }
    if step.Begin? {
      assert Counters(after.leases, g, d) == Counters(w.leases, g, d) + [0];
      TotalSnoc(Counters(w.leases, g, d), 0);
      assert InFlight(after.transfers, after.leases, g, d) == InFlight(w.transfers, w.leases, g, d);
    } else if step.Observe? {
      assert InFlight(after.transfers, after.leases, g, d) == InFlight(w.transfers, w.leases, g, d) + [0];
      TotalSnoc(InFlight(w.transfers, w.leases, g, d), 0);
    }
  }

  lemma {:induction false} AllZero(values: seq<nat>)
    requires forall i :: 0 <= i < |values| ==> values[i] == 0
    ensures Total(values) == 0
  {
    if values != [] {
      AllZero(values[..|values| - 1]);
    }
  }

  lemma CountersKept(a: seq<Lease>, b: seq<Lease>, g: nat, d: Direction)
    requires |a| == |b|
    requires forall i :: 0 <= i < |a| ==> a[i].generation == b[i].generation && CounterOf(a[i], d) == CounterOf(b[i], d)
    ensures Counters(a, g, d) == Counters(b, g, d)
  {
  }

  lemma InFlightKept(transfers: seq<Transfer>, a: seq<Lease>, b: seq<Lease>, g: nat, d: Direction)
    requires |a| == |b| && forall i :: 0 <= i < |a| ==> a[i].generation == b[i].generation
    ensures InFlight(transfers, a, g, d) == InFlight(transfers, b, g, d)
  {
  }

  lemma OtherStepsKeepBytes(w: World, step: Step, g: nat, d: Direction)
    requires Inv(w) && Enabled(w, step) && g < |w.generations|
    requires !step.AddToRecord? && !step.AddToTotal? && !step.Begin? && !step.Observe? && !step.StartGeneration?
    ensures BytesMatch(Apply(w, step), g, d)
  {
    var after := Apply(w, step);
    assert BytesMatch(w, g, d);
    CountersKept(w.leases, after.leases, g, d);
    InFlightKept(w.transfers, w.leases, after.leases, g, d);
  }

  lemma StepKeepsBytes(w: World, step: Step)
    requires Inv(w) && Enabled(w, step)
    ensures BytesOk(Apply(w, step))
  {
    var after := Apply(w, step);
    forall g: nat, d | g < |after.generations| ensures BytesMatch(after, g, d) {
      match step
      case AddToRecord(t) => AddToRecordKeepsBytes(w, t, g, d);
      case AddToTotal(t) => AddToTotalKeepsBytes(w, t, g, d);
      case Begin(_) => AppendKeepsBytes(w, step, g, d);
      case Observe(_, _, _) => AppendKeepsBytes(w, step, g, d);
      case StartGeneration => AppendKeepsBytes(w, step, g, d);
      case _ => OtherStepsKeepBytes(w, step, g, d);
    }
  }

  lemma InitiallyOk()
    ensures Inv(INITIAL)
  {
    assert LiveIn([], 0) == {} && HiddenIn([], 0) == {} && SpeakingIn([], 0, Tcp) == {} && SpeakingIn([], 0, Udp) == {};
  }

  lemma {:induction false} RunKeeps(w: World, steps: seq<Step>)
    requires Inv(w) && CanRun(w, steps)
    ensures Inv(Run(w, steps))
    decreases |steps|
  {
    if steps != [] {
      StepKeepsLeases(w, steps[0]);
      StepKeepsRegistries(w, steps[0]);
      StepKeepsBytes(w, steps[0]);
      RunKeeps(Apply(w, steps[0]), steps[1..]);
    }
  }

  // Main results

  ghost predicate Reachable(w: World) {
    Sound(w) && exists steps :: CanRun(INITIAL, steps) && Run(INITIAL, steps) == w
  }

  lemma ReachableOk(w: World)
    requires Reachable(w)
    ensures Inv(w)
  {
    var steps :| CanRun(INITIAL, steps) && Run(INITIAL, steps) == w;
    InitiallyOk();
    RunKeeps(INITIAL, steps);
  }

  /**
   * In every run the tables agree with the leases and stay within their limits, and no id is both live and in
   * history.
   */
  lemma RegistriesStayBounded(w: World, g: nat)
    requires Reachable(w) && g < |w.generations|
    ensures var r := w.generations[g].registry;
      && r.active == |r.live| + w.generations[g].omitted
      && r.live == LiveIn(w.leases, g) && w.generations[g].omitted == |HiddenIn(w.leases, g)|
      && |r.live| <= LIVE_LIMIT && |r.cancellation| <= CANCELLATION_LIMIT && |r.history| <= HISTORY_LIMIT
      && InOrder(r.history)
      && forall row :: row in r.history ==> row.id !in r.live && row.id < |w.leases| && w.leases[row.id].final.Some?
  {
    ReachableOk(w);
    assert GenerationOk(w, g);
    forall row | row in w.generations[g].registry.history
      ensures row.id !in w.generations[g].registry.live && row.id < |w.leases| && w.leases[row.id].final.Some?
    {
      assert RowOk(w.leases, g, row, w.clock);
    }
  }

  /** Taking the finished flag is enough: the lease can then be sealed and retired, once. */
  lemma RetiresOnce(w: World, step: Step, id: nat)
    requires Reachable(w) && Enabled(w, step) && id < |w.leases|
    ensures w.leases[id].phase.Sealed? ==> Enabled(w, Retire(id))
    ensures var after := Apply(w, step);
      && id < |after.leases|
      && (w.leases[id].final.Some? ==> after.leases[id].final == w.leases[id].final)
      && (w.leases[id].phase.Gone? ==> after.leases[id].phase.Gone?)
      && (!w.leases[id].phase.Gone? && after.leases[id].phase.Gone? <==> step == Retire(id))
  {
    ReachableOk(w);
    if w.leases[id].phase.Sealed? {
      RetireIsEnabled(w, id);
    }
    assert LeaseOk(w.leases[id], w.generations[w.leases[id].generation].epoch);
  }

  /** With no update in flight, a generation's byte totals are the sums of its leases' counters. */
  lemma TotalsAreSums(w: World, g: nat, d: Direction)
    requires Reachable(w) && g < |w.generations|
    requires forall t :: 0 <= t < |w.transfers| ==> !w.transfers[t].stage.RecordAdded?
    ensures TotalOf(w.generations[g], d) == Total(Counters(w.leases, g, d))
  {
    ReachableOk(w);
    assert BytesMatch(w, g, d);
    AllZero(InFlight(w.transfers, w.leases, g, d));
  }

  predicate IsCancelled(w: World, id: nat)
    requires Sound(w) && id < |w.leases|
  {
    var l := w.leases[id];
    l.cancelled || (!l.phase.Begun? && w.generations[l.generation].epoch != l.epoch)
  }

  /** Close-all cancels every lease its generation admitted before, and no lease not admitted yet or of another one. */
  lemma CloseAllIsExact(w: World, id: nat)
    requires Reachable(w) && id < |w.leases|
    ensures Sound(w)
    ensures IsCancelled(Apply(w, CloseAll), id) <==>
      IsCancelled(w, id) || (w.leases[id].generation == Current(w) && !w.leases[id].phase.Begun?)
    ensures w.generations[Current(w)].registry.active ==
      |LiveIn(w.leases, Current(w))| + |HiddenIn(w.leases, Current(w))|
  {
    ReachableOk(w);
    assert LeaseOk(w.leases[id], w.generations[w.leases[id].generation].epoch);
    assert GenerationOk(w, Current(w));
  }

  /** A lease starts uncancelled, and from then on only being named or a close-all of its own generation cancels it. */
  lemma OnlyCloseCancels(w: World, step: Step, id: nat)
    requires Reachable(w) && Enabled(w, step) && id < |w.leases|
    ensures Sound(w) && Sound(Apply(w, step)) && id < |Apply(w, step).leases|
    ensures step == Admit(id) ==> !IsCancelled(Apply(w, step), id)
    ensures !w.leases[id].phase.Begun? && IsCancelled(w, id) ==> IsCancelled(Apply(w, step), id)
    ensures !IsCancelled(w, id) && IsCancelled(Apply(w, step), id) ==>
      w.leases[id].generation == Current(w) && (step.CloseAll? || (step.Close? && id in step.ids))
  {
    ReachableOk(w);
    StepKeepsLeases(w, step);
    assert LeaseOk(w.leases[id], w.generations[w.leases[id].generation].epoch);
    if step.Close? && Addressed(w, step.ids, id) {
      assert GenerationOk(w, Current(w));
    }
  }

  // What sealing captures

  /** Updates of a lease in one direction that had passed the finished check when it was sealed and were added since. */
  function Late(sealed: World, now: World, id: nat, d: Direction): (r: seq<nat>)
    requires |sealed.transfers| <= |now.transfers|
    ensures |r| == |sealed.transfers|
  {
    seq(|sealed.transfers|, t requires 0 <= t < |sealed.transfers| =>
      if IsLate(sealed, now, id, t) && sealed.transfers[t].direction == d then sealed.transfers[t].bytes else 0)
  }

  predicate IsLate(sealed: World, now: World, id: nat, t: nat)
    requires t < |sealed.transfers| <= |now.transfers|
  {
    sealed.transfers[t].lease == id && sealed.transfers[t].stage.Checked? && !now.transfers[t].stage.Checked?
  }

  predicate NoneLate(sealed: World, now: World, id: nat)
    requires |sealed.transfers| <= |now.transfers|
  {
    forall t :: 0 <= t < |sealed.transfers| ==> !IsLate(sealed, now, id, t)
  }

  /** Transfers of before keep what they are and only move on; later ones belong to other leases. */
  ghost predicate TransfersSince(sealed: World, now: World, id: nat) {
    && |sealed.transfers| <= |now.transfers|
    && (forall t :: 0 <= t < |sealed.transfers| ==>
          var a, b := sealed.transfers[t], now.transfers[t];
          a.lease == b.lease && a.direction == b.direction && a.bytes == b.bytes
          && (b.stage.Checked? ==> a.stage.Checked?))
    && (forall t :: |sealed.transfers| <= t < |now.transfers| ==> now.transfers[t].lease != id)
  }

  ghost predicate Since(sealed: World, now: World, id: nat) {
    && TransfersSince(sealed, now, id)
    && id < |sealed.leases| && id < |now.leases|
    && (now.leases[id].phase.Sealed? || now.leases[id].phase.Gone?)
    && now.leases[id].final == sealed.leases[id].final
    && forall d ::
         CounterOf(now.leases[id], d) == CounterOf(sealed.leases[id], d) + Total(Late(sealed, now, id, d))
  }

  lemma AddKeepsSince(sealed: World, now: World, id: nat, t: nat)
    requires Since(sealed, now, id) && Sound(now) && Enabled(now, AddToRecord(t))
    ensures Since(sealed, Apply(now, AddToRecord(t)), id)
  {
    var after := Apply(now, AddToRecord(t));
    var x := now.transfers[t];
    forall d
      ensures CounterOf(after.leases[id], d) == CounterOf(sealed.leases[id], d) + Total(Late(sealed, after, id, d))
    {
      var before := Late(sealed, now, id, d);
      if x.lease == id {
        assert Late(sealed, after, id, d) == before[t := if x.direction == d then x.bytes else 0];
        TotalUpdate(before, t, if x.direction == d then x.bytes else 0);
      } else {
        assert Late(sealed, after, id, d) == before;
      }
    }
  }

  lemma StepKeepsSince(sealed: World, now: World, id: nat, step: Step)
    requires Since(sealed, now, id) && Sound(now) && Enabled(now, step)
    ensures Since(sealed, Apply(now, step), id)
  {
    var after := Apply(now, step);
    if step.AddToRecord? {
      AddKeepsSince(sealed, now, id, step.transfer);
    } else {
      forall d ensures Late(sealed, after, id, d) == Late(sealed, now, id, d) {}
    }
  }

  lemma {:induction false} RunKeepsSince(sealed: World, now: World, id: nat, steps: seq<Step>)
    requires Since(sealed, now, id) && CanRun(now, steps)
    ensures Since(sealed, Run(now, steps), id)
    decreases |steps|
  {
    if steps != [] {
      StepKeepsSince(sealed, now, id, steps[0]);
      RunKeepsSince(sealed, Apply(now, steps[0]), id, steps[1..]);
    }
  }

  lemma SealedSince(w: World, id: nat)
    requires Inv(w) && Enabled(w, Seal(id))
    ensures Since(Apply(w, Seal(id)), Apply(w, Seal(id)), id)
  {
    var sealed := Apply(w, Seal(id));
    forall d ensures Total(Late(sealed, sealed, id, d)) == 0 { AllZero(Late(sealed, sealed, id, d)); }
  }

  lemma {:induction false} TotalIsZero(values: seq<nat>)
    ensures Total(values) == 0 <==> forall i :: 0 <= i < |values| ==> values[i] == 0
  {
    if values != [] {
      TotalIsZero(values[..|values| - 1]);
    }
  }

  lemma NoneLateIsZero(sealed: World, now: World, id: nat)
    requires Sound(sealed) && |sealed.transfers| <= |now.transfers|
    ensures NoneLate(sealed, now, id) <==>
      Total(Late(sealed, now, id, Upload)) == 0 && Total(Late(sealed, now, id, Download)) == 0
  {
    TotalIsZero(Late(sealed, now, id, Upload));
    TotalIsZero(Late(sealed, now, id, Download));
    if t :| 0 <= t < |sealed.transfers| && IsLate(sealed, now, id, t) {
      assert Late(sealed, now, id, sealed.transfers[t].direction)[t] != 0;
    }
  }

  predicate SealedExactly(l: Lease) {
    l.final == Some((l.sent, l.received))
  }

  /** Whatever happens after sealing, the sealed counts fall short by exactly the late updates; so they are the lease's
      counters exactly when no update that had passed the check by then has reached its record since. */
  lemma SealedCountsMissLate(w: World, id: nat, steps: seq<Step>)
    requires Reachable(w) && Enabled(w, Seal(id)) && w.leases[id].tracked && CanRun(Apply(w, Seal(id)), steps)
    ensures var sealed := Apply(w, Seal(id));
      var now := Run(sealed, steps);
      && |sealed.transfers| <= |now.transfers| && id < |now.leases|
      && var l := now.leases[id];
         && l.final.Some?
         && l.sent == l.final.value.0 + Total(Late(sealed, now, id, Upload))
         && l.received == l.final.value.1 + Total(Late(sealed, now, id, Download))
         && (SealedExactly(l) <==> NoneLate(sealed, now, id))
  {
    ReachableOk(w);
    var sealed := Apply(w, Seal(id));
    SealedSince(w, id);
    RunKeepsSince(sealed, sealed, id, steps);
    StepKeepsLeases(w, Seal(id));
    NoneLateIsZero(sealed, Run(sealed, steps), id);
  }

  /** No update of the lease is between its finished check and its record, as once its I/O owners have stopped. */
  predicate OwnersStopped(w: World, id: nat) {
    forall t :: 0 <= t < |w.transfers| && w.transfers[t].lease == id ==> !w.transfers[t].stage.Checked?
  }

  ghost predicate StaysExact(w: World, id: nat) {
    forall steps :: CanRun(w, steps) && id < |Run(w, steps).leases| ==> SealedExactly(Run(w, steps).leases[id])
  }

  /** Sealing is exact for good exactly when the owners have stopped by then. */
  lemma StoppedOwnersSealExactly(w: World, id: nat)
    requires Reachable(w) && Enabled(w, Seal(id)) && w.leases[id].tracked
    ensures StaysExact(Apply(w, Seal(id)), id) <==> OwnersStopped(w, id)
  {
    var sealed := Apply(w, Seal(id));
    if OwnersStopped(w, id) {
      forall steps | CanRun(sealed, steps) && id < |Run(sealed, steps).leases|
        ensures SealedExactly(Run(sealed, steps).leases[id])
      {
        SealedCountsMissLate(w, id, steps);
      }
    } else {
      var t :| 0 <= t < |w.transfers| && w.transfers[t].lease == id && w.transfers[t].stage.Checked?;
      ReachableOk(w);
      StepKeepsLeases(w, Seal(id));
      var late := [AddToRecord(t)];
      var now := Apply(sealed, AddToRecord(t));
      assert late[1..] == [] && CanRun(now, []) && Run(now, []) == now;
      assert CanRun(sealed, late) && Run(sealed, late) == now;
      SealedCountsMissLate(w, id, late);
      assert IsLate(sealed, now, id, t);
    }
  }

  /** A run in which they had not: five bytes checked before the lease finished are added after it was sealed. */
  lemma SealedCanMissBytes()
    ensures var steps := [Begin(Tcp), Admit(0), Observe(0, Upload, 5), Finish(0), Seal(0), AddToRecord(0)];
      && CanRun(INITIAL, steps)
      && var w := Run(INITIAL, steps);
         |w.leases| == 1 && w.leases[0].final == Some((0, 0)) && w.leases[0].sent == 5
  {
    var a := Apply(INITIAL, Begin(Tcp));
    var b := Apply(a, Admit(0));
    var c := Apply(b, Observe(0, Upload, 5));
    var d := Apply(c, Finish(0));
    var e := Apply(d, Seal(0));
    var f := Apply(e, AddToRecord(0));
    assert CanRun(f, []) && Run(f, []) == f;
    Prepend(e, AddToRecord(0), []);
    Prepend(d, Seal(0), [AddToRecord(0)]);
    Prepend(c, Finish(0), [Seal(0), AddToRecord(0)]);
    Prepend(b, Observe(0, Upload, 5), [Finish(0), Seal(0), AddToRecord(0)]);
    Prepend(a, Admit(0), [Observe(0, Upload, 5), Finish(0), Seal(0), AddToRecord(0)]);
    Prepend(INITIAL, Begin(Tcp), [Admit(0), Observe(0, Upload, 5), Finish(0), Seal(0), AddToRecord(0)]);
  }

  lemma Prepend(w: World, step: Step, rest: seq<Step>)
    requires Sound(w) && Enabled(w, step) && CanRun(Apply(w, step), rest)
    ensures CanRun(w, [step] + rest) && Run(w, [step] + rest) == Run(Apply(w, step), rest)
  {
    assert ([step] + rest)[1..] == rest;
  }

  /** A retirement is always possible: its generation still counts the lease. */
  lemma RetireIsEnabled(w: World, id: nat)
    requires Inv(w) && id < |w.leases| && w.leases[id].phase.Sealed?
    ensures Enabled(w, Retire(id))
  {
    var l := w.leases[id];
    var g := l.generation;
    assert GenerationOk(w, g);
    assert id in SpeakingIn(w.leases, g, l.protocol);
    if l.tracked {
      assert id in LiveIn(w.leases, g);
    } else {
      assert id in HiddenIn(w.leases, g);
    }
  }
}

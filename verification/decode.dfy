/**
 Replay of a capture (crates/ferrum2-rocom/src/decode.rs). Lines arrive already split; of the
 packet decoders the framing is modelled, which decides whether they run out of their budget.
 */
module Decode {
  import opened Prelude
  import opened Wire
  import opened Keys
  import opened KeyTrackers
  import opened Framing
  import opened Budget

  const U64_MAX: nat := 0xFFFF_FFFF_FFFF_FFFF
  const MAX_ACTIVE: nat := 1024
  const MAX_SEEN: nat := 1_000_000
  const MIN_CAPTURE: nat := 65536
  const MAX_CHUNK: nat := 32768

  datatype Event =
    | Started(maxBytes: nat)
    | Connection(opens: nat)
    | Data(connection: nat, direction: Direction, offset: nat, payload: Option<seq<Byte>>)
    | Key(owner: nat, evidence: KeySnapshot)
    | End(closes: nat, endReason: string)
    | Stopped(complete: bool, stopReason: string)

  datatype Record = Record(schemaVersion: nat, eventSeq: nat, event: Event)

  datatype Line = TooLong | Unterminated | Unparsable | Rec(record: Record)

  const END_REASONS: seq<string> := ["completed", "io", "idle_timeout", "cancelled"]
  const STOP_REASONS: seq<string> :=
    ["shutdown", "queue_full", "size_limit", "writer_error", "resource_limit", "open_connections"]

  // What a prefix of the capture says

  function Events(lines: seq<Line>): seq<Event>
    requires forall line :: line in lines ==> line.Rec?
  {
    seq(|lines|, k requires 0 <= k < |lines| => lines[k].record.event)
  }

  function SeenIds(events: seq<Event>): set<nat> {
    if events == [] then {}
    else
      var last := events[|events| - 1];
      SeenIds(events[..|events| - 1]) + if last.Connection? then {last.opens} else {}
  }

  function OpenIds(events: seq<Event>): set<nat> {
    if events == [] then {}
    else
      var last := events[|events| - 1];
      var before := OpenIds(events[..|events| - 1]);
      match last
      case Connection(id) => before + {id}
      case End(id, _) => before - {id}
      case _ => before
  }

  function Payload(e: Event): seq<Byte> {
    if e.Data? && e.payload.Some? then e.payload.value else []
  }

  /** The bytes of one direction of a connection so far. */
  function Received(events: seq<Event>, id: nat, direction: Direction): seq<Byte> {
    if events == [] then []
    else
      var last := events[|events| - 1];
      Received(events[..|events| - 1], id, direction)
      + if last.Data? && last.connection == id && last.direction == direction then Payload(last) else []
  }

  /** The handshake tracker of a connection after all its data. */
  function TrackerOf(events: seq<Event>, id: nat): Tracker {
    if events == [] then NEW_TRACKER
    else
      var last := events[|events| - 1];
      var before := TrackerOf(events[..|events| - 1], id);
      if last.Data? && last.connection == id then TrackerFeed(before, last.direction, Payload(last)).0 else before
  }

  type Evidence = (nat, KeySnapshot)

  function Owned(id: nat, snapshots: seq<KeySnapshot>): (r: seq<Evidence>)
    ensures |r| == |snapshots|
  {
    seq(|snapshots|, i requires 0 <= i < |snapshots| => (id, snapshots[i]))
  }

  /** The key records a piece of data has to be followed by. */
  function KeysOf(before: seq<Event>, data: Event): seq<Evidence>
    requires data.Data?
  {
    Owned(data.connection, TrackerFeed(TrackerOf(before, data.connection), data.direction, Payload(data)).1)
  }

  /** Key records still owed. */
  function Owed(events: seq<Event>): seq<Evidence> {
    if events == [] then []
    else
      var last := events[|events| - 1];
      var before := events[..|events| - 1];
      if last.Data? then Owed(before) + KeysOf(before, last)
      else if last.Key? && Owed(before) != [] then Owed(before)[1..]
      else Owed(before)
  }

  /** The packet decoders of the open connections after all data. */
  ghost function FramersOf(events: seq<Event>): map<nat, Framers> {
    if events == [] then map[]
    else
      var last := events[|events| - 1];
      var before := FramersOf(events[..|events| - 1]);
      match last
      case Connection(id) => before[id := NEW_FRAMERS]
      case End(id, _) => before - {id}
      case Data(id, direction, _, _) => AfterChunk(before, id, direction, Payload(last))
      case _ => before
  }

  lemma {:induction false} FramersAreBudgeted(events: seq<Event>)
    ensures Budgeted(FramersOf(events)) && FramersOf(events).Keys == OpenIds(events)
  {
    if events != [] {
      var last := events[|events| - 1];
      var before := FramersOf(events[..|events| - 1]);
      FramersAreBudgeted(events[..|events| - 1]);
      match last
      case Connection(id) => BudgetedNew(before, id);
      case End(id, _) =>
        if id in before { BudgetedWithout(before, id); } else { assert before - {id} == before; }
      case Data(id, direction, _, _) => BudgetedAfterChunk(before, id, direction, Payload(last));
      case _ =>
    }
  }

  /** What one direction of an open connection may hold. */
  ghost function RoomAfter(events: seq<Event>, id: nat, direction: Direction): nat
    requires id in OpenIds(events)
  {
    FramersAreBudgeted(events);
    Room(FramersOf(events), id, direction)
  }

  predicate HasStopped(events: seq<Event>) {
    exists e :: e in events && e.Stopped?
  }

  // A well-formed capture

  predicate ChunkFits(bytes: seq<Byte>) {
    1 <= |bytes| <= MAX_CHUNK
  }

  ghost predicate EventOk(before: seq<Event>, e: Event, size: nat) {
    match e
    case Started(maxBytes) => before == [] && MIN_CAPTURE <= maxBytes && size <= maxBytes
    case Connection(id) =>
      id != 0 && id !in SeenIds(before) && |SeenIds(before)| < MAX_SEEN && |OpenIds(before)| < MAX_ACTIVE
    case Data(id, direction, offset, payload) =>
      && id in OpenIds(before)
      && payload.Some? && ChunkFits(payload.value)
      && offset == |Received(before, id, direction)|
      && offset + |payload.value| <= U64_MAX
      && !Overruns(Received(before, id, direction), payload.value, RoomAfter(before, id, direction))
    case Key(id, evidence) => Owed(before) != [] && Owed(before)[0] == (id, evidence)
    case End(id, reason) => id in OpenIds(before) && reason in END_REASONS
    case Stopped(complete, reason) =>
      reason in STOP_REASONS && (complete ==> reason == "shutdown" && OpenIds(before) == {})
  }

  ghost predicate LineOk(before: seq<Event>, line: Line, size: nat) {
    && line.Rec?
    && var r := line.record;
       && r.schemaVersion == 1 && r.eventSeq == |before| + 1 < U64_MAX
       && !HasStopped(before)
       && (before == [] ==> r.event.Started?)
       && (Owed(before) != [] ==> r.event.Key?)
       && EventOk(before, r.event, size)
  }

  predicate AllRecords(lines: seq<Line>) {
    forall line :: line in lines ==> line.Rec?
  }

  ghost predicate AllOk(lines: seq<Line>, size: nat) {
    && AllRecords(lines)
    && forall k :: 0 <= k < |lines| ==> LineOk(Events(lines)[..k], lines[k], size)
  }

  predicate LastWasShutdown(events: seq<Event>) {
    events != [] && events[|events| - 1] == Stopped(true, "shutdown")
  }

  /** Started first, everything in order, every key record owed delivered, and one final clean shutdown. */
  ghost predicate WellFormedCapture(lines: seq<Line>, size: nat) {
    && AllOk(lines, size)
    && LastWasShutdown(Events(lines))
    && Owed(Events(lines)) == []
  }

  // The record loop

  datatype Session = Session(tracker: Tracker, framers: Framers, offsets: (nat, nat), rejected: (bool, bool))

  const NEW_SESSION: Session := Session(NEW_TRACKER, NEW_FRAMERS, (0, 0), (false, false))

  function OffsetOf(s: Session, d: Direction): nat { if d == Upload then s.offsets.0 else s.offsets.1 }

  function RejectedOf(s: Session, d: Direction): bool { if d == Upload then s.rejected.0 else s.rejected.1 }

  function WithOffset(s: Session, d: Direction, offset: nat): Session {
    s.(offsets := if d == Upload then (offset, s.offsets.1) else (s.offsets.0, offset))
  }

  function WithRejected(s: Session, d: Direction): Session {
    s.(rejected := if d == Upload then (true, s.rejected.1) else (s.rejected.0, true))
  }

  // What the loop's fields say about the events before them

  ghost function SessionOf(events: seq<Event>, id: nat): Session {
    Session(TrackerOf(events, id), if id in FramersOf(events) then FramersOf(events)[id] else NEW_FRAMERS,
            (|Received(events, id, Upload)|, |Received(events, id, Download)|), (false, false))
  }

  datatype Reading = Reading(
    started: bool, seen: set<nat>, sessions: map<nat, Session>, pending: seq<Evidence>, stopped: bool)

  ghost function ReadingOf(events: seq<Event>): Reading {
    Reading(events != [], SeenIds(events), map id | id in OpenIds(events) :: SessionOf(events, id), Owed(events),
            HasStopped(events))
  }

  /** Only announced connections are open, and nothing has reached any other. */
  ghost predicate AnnouncedFirst(events: seq<Event>) {
    && OpenIds(events) <= SeenIds(events)
    && forall id: nat :: id !in SeenIds(events) ==> SessionOf(events, id) == NEW_SESSION
  }

  /** The packet decoder of a direction holds what that direction has left unfinished. */
  ghost predicate FramesAt(events: seq<Event>, id: nat, direction: Direction) {
    id in FramersOf(events) ==> Frames(FramersOf(events)[id].Of(direction), Received(events, id, direction))
  }

  ghost predicate AllFrame(events: seq<Event>) {
    forall id: nat, direction: Direction :: FramesAt(events, id, direction)
  }

  ghost predicate Reads(events: seq<Event>, r: Reading) {
    && r == ReadingOf(events)
    && AnnouncedFirst(events)
    && AllFrame(events)
  }

  function FramersIn(sessions: map<nat, Session>): map<nat, Framers> {
    map id | id in sessions :: sessions[id].framers
  }

  lemma ReadsFramers(events: seq<Event>, r: Reading)
    requires Reads(events, r)
    ensures FramersIn(r.sessions) == FramersOf(events)
  {
    FramersAreBudgeted(events);
  }

  lemma Append(events: seq<Event>, e: Event)
    ensures var longer := events + [e]; longer != [] && longer[..|events|] == events && longer[|longer| - 1] == e
    ensures HasStopped(events + [e]) <==> HasStopped(events) || e.Stopped?
  {
    assert (events + [e])[..|events|] == events;
    assert e in events + [e];
  }

  lemma SessionKept(events: seq<Event>, e: Event, id: nat)
    requires e.Data? ==> e.connection != id
    requires e.End? ==> e.closes != id
    requires e.Connection? ==> e.opens != id
    ensures SessionOf(events + [e], id) == SessionOf(events, id)
    ensures forall d :: Received(events + [e], id, d) == Received(events, id, d)
    ensures id in OpenIds(events + [e]) <==> id in OpenIds(events)
  {
    Append(events, e);
  }

  lemma SessionsKept(events: seq<Event>, e: Event)
    requires !e.Data? && !e.End? && !e.Connection?
    ensures forall id: nat :: SessionOf(events + [e], id) == SessionOf(events, id)
    ensures AllFrame(events) ==> AllFrame(events + [e])
  {
    forall id: nat ensures SessionOf(events + [e], id) == SessionOf(events, id) { SessionKept(events, e, id); }
    if AllFrame(events) {
      FramesKept(events, e, {});
    }
  }

  /** Decoders of connections the event does not concern go on framing what they received. */
  lemma FramesKept(events: seq<Event>, e: Event, concerned: set<nat>)
    requires AllFrame(events)
    requires e.Data? ==> e.connection in concerned
    requires e.End? ==> e.closes in concerned
    requires e.Connection? ==> e.opens in concerned
    ensures forall id: nat, direction: Direction :: id !in concerned ==> FramesAt(events + [e], id, direction)
  {
    forall id: nat, direction: Direction | id !in concerned ensures FramesAt(events + [e], id, direction) {
      SessionKept(events, e, id);
      assert FramesAt(events, id, direction);
      assert SessionOf(events + [e], id).framers == SessionOf(events, id).framers;
    }
  }

  lemma ReadsStarted(events: seq<Event>, e: Event, r: Reading)
    requires e.Started? && Reads(events, r)
    ensures Reads(events + [e], r.(started := true))
  {
    Append(events, e);
    SessionsKept(events, e);
  }

  lemma ReadsConnection(events: seq<Event>, e: Event, r: Reading)
    requires e.Connection? && r.started && e.opens !in r.seen && Reads(events, r)
    ensures Reads(events + [e], r.(seen := r.seen + {e.opens}, sessions := r.sessions[e.opens := NEW_SESSION]))
  {
    Append(events, e);
    forall id: nat | id != e.opens ensures SessionOf(events + [e], id) == SessionOf(events, id) {
      SessionKept(events, e, id);
    }
    assert SessionOf(events, e.opens) == NEW_SESSION;
    assert SessionOf(events + [e], e.opens) == NEW_SESSION;
    FramesKept(events, e, {e.opens});
    forall direction: Direction ensures FramesAt(events + [e], e.opens, direction) {
      assert OffsetOf(SessionOf(events, e.opens), direction) == 0;
      assert Received(events + [e], e.opens, direction) == Received(events, e.opens, direction) == [];
    }
  }

  lemma ReadsKey(events: seq<Event>, e: Event, r: Reading)
    requires e.Key? && r.started && r.pending != [] && Reads(events, r)
    ensures Reads(events + [e], r.(pending := r.pending[1..]))
  {
    Append(events, e);
    SessionsKept(events, e);
  }

  lemma ReadsEnd(events: seq<Event>, e: Event, r: Reading)
    requires e.End? && r.started && e.closes in r.sessions && Reads(events, r)
    ensures Reads(events + [e], r.(sessions := r.sessions - {e.closes}))
  {
    Append(events, e);
    forall id: nat | id != e.closes ensures SessionOf(events + [e], id) == SessionOf(events, id) {
      SessionKept(events, e, id);
    }
    FramesKept(events, e, {e.closes});
    assert e.closes !in FramersOf(events + [e]);
  }

  lemma ReadsStopped(events: seq<Event>, e: Event, r: Reading)
    requires e.Stopped? && r.started && Reads(events, r)
    ensures Reads(events + [e], r.(stopped := true))
  {
    Append(events, e);
    SessionsKept(events, e);
  }

  /** A session once a piece of data went to its tracker and its packet decoder. */
  function SessionFed(s: Session, direction: Direction, bytes: seq<Byte>, framer: Framer): Session {
    s.(tracker := TrackerFeed(s.tracker, direction, bytes).0, framers := s.framers.With(direction, framer))
  }

  /** A session once a piece of data was accepted. */
  function Advanced(s: Session, direction: Direction, offset: nat, bytes: seq<Byte>, framer: Framer): Session {
    WithOffset(SessionFed(s, direction, bytes, framer), direction, offset + |bytes|)
  }

  lemma FramersGrow(events: seq<Event>, e: Event)
    requires e.Data?
    ensures FramersOf(events + [e]) == AfterChunk(FramersOf(events), e.connection, e.direction, Payload(e))
  {
    Append(events, e);
  }

  lemma ReceivedGrows(events: seq<Event>, e: Event)
    requires e.Data?
    ensures Received(events + [e], e.connection, e.direction)
      == Received(events, e.connection, e.direction) + Payload(e)
    ensures forall d :: d != e.direction ==>
      Received(events + [e], e.connection, d) == Received(events, e.connection, d)
  {
    Append(events, e);
  }

  lemma TrackerGrows(events: seq<Event>, e: Event)
    requires e.Data?
    ensures TrackerOf(events + [e], e.connection)
      == TrackerFeed(TrackerOf(events, e.connection), e.direction, Payload(e)).0
  {
    Append(events, e);
  }

  /** What feeding a chunk to its packet decoder gives. */
  ghost function DecodedBy(events: seq<Event>, e: Event): (Framer, bool)
    requires e.Data? && e.connection in OpenIds(events)
  {
    FramersAreBudgeted(events);
    Decoded(FramersOf(events), e.connection, e.direction, Payload(e))
  }

  lemma SessionGrows(events: seq<Event>, e: Event)
    requires e.Data? && e.connection in OpenIds(events)
    ensures var s := SessionOf(events, e.connection);
      SessionOf(events + [e], e.connection)
      == Advanced(s, e.direction, OffsetOf(s, e.direction), Payload(e), DecodedBy(events, e).0)
  {
    FramersAreBudgeted(events);
    FramersGrow(events, e);
    ReceivedGrows(events, e);
    TrackerGrows(events, e);
  }

  /** The packet decoder of a chunk runs out of capacity exactly if the chunk overruns; else it frames on. */
  lemma ChunkFrames(events: seq<Event>, e: Event)
    requires e.Data? && e.connection in OpenIds(events) && AllFrame(events)
    ensures var (g, over) := DecodedBy(events, e);
      && (over <==> Overruns(Received(events, e.connection, e.direction), Payload(e),
                             RoomAfter(events, e.connection, e.direction)))
      && (!over ==> AllFrame(events + [e]))
  {
    FramersAreBudgeted(events);
    var id := e.connection;
    var open := FramersOf(events);
    var limit := RoomAfter(events, id, e.direction);
    assert FramesAt(events, id, e.direction);
    FeedFrames(open[id].Of(e.direction), Received(events, id, e.direction), Payload(e), limit);
    if !DecodedBy(events, e).1 {
      FramersGrow(events, e);
      ReceivedGrows(events, e);
      FramesKept(events, e, {id});
      forall direction: Direction ensures FramesAt(events + [e], id, direction) {
        assert FramesAt(events, id, direction);
      }
    }
  }

  lemma ReadsData(events: seq<Event>, e: Event, r: Reading)
    requires e.Data? && r.started && e.connection in r.sessions && Reads(events, r) && !DecodedBy(events, e).1
    ensures var s := r.sessions[e.connection];
      && s == SessionOf(events, e.connection)
      && Reads(events + [e], r.(
          sessions := r.sessions[e.connection :=
            Advanced(s, e.direction, OffsetOf(s, e.direction), Payload(e), DecodedBy(events, e).0)],
          pending := r.pending + KeysOf(events, e)))
  {
    Append(events, e);
    SessionGrows(events, e);
    ChunkFrames(events, e);
    forall id: nat | id != e.connection ensures SessionOf(events + [e], id) == SessionOf(events, id) {
      SessionKept(events, e, id);
    }
  }

  // One event against what has been read so far

  ghost predicate AcceptsData(r: Reading, e: Event)
    requires e.Data? && Budgeted(FramersIn(r.sessions))
  {
    && e.connection in r.sessions
    && e.payload.Some? && ChunkFits(e.payload.value)
    && e.offset == OffsetOf(r.sessions[e.connection], e.direction)
    && e.offset + |e.payload.value| <= U64_MAX
    && !Decoded(FramersIn(r.sessions), e.connection, e.direction, e.payload.value).1
  }

  ghost function AfterData(r: Reading, e: Event): Reading
    requires e.Data? && Budgeted(FramersIn(r.sessions)) && AcceptsData(r, e)
  {
    var id, direction, bytes := e.connection, e.direction, e.payload.value;
    var s, framer := r.sessions[id], Decoded(FramersIn(r.sessions), id, direction, bytes).0;
    r.(sessions := r.sessions[id := Advanced(s, direction, e.offset, bytes, framer)],
       pending := r.pending + Owned(id, TrackerFeed(s.tracker, direction, bytes).1))
  }

  /** The event raises no error. */
  ghost predicate Accepts(r: Reading, e: Event, size: nat)
    requires Budgeted(FramersIn(r.sessions))
  {
    match e
    case Started(maxBytes) => !r.started && MIN_CAPTURE <= maxBytes && size <= maxBytes
    case Connection(id) => id != 0 && id !in r.seen && |r.seen| < MAX_SEEN && |r.sessions| < MAX_ACTIVE
    case Data(_, _, _, _) => AcceptsData(r, e)
    case Key(id, evidence) => r.pending != [] && r.pending[0] == (id, evidence)
    case End(id, reason) => id in r.sessions && reason in END_REASONS
    case Stopped(complete, reason) =>
      reason in STOP_REASONS && (complete ==> reason == "shutdown" && r.sessions == map[])
  }

  ghost function AfterEvent(r: Reading, e: Event, size: nat): Reading
    requires Budgeted(FramersIn(r.sessions)) && Accepts(r, e, size)
  {
    match e
    case Started(_) => r.(started := true)
    case Connection(id) => r.(seen := r.seen + {id}, sessions := r.sessions[id := NEW_SESSION])
    case Data(_, _, _, _) => AfterData(r, e)
    case Key(_, _) => r.(pending := r.pending[1..])
    case End(id, _) => r.(sessions := r.sessions - {id})
    case Stopped(_, _) => r.(stopped := true)
  }

  /** What has been read decides an event exactly as the events themselves do. */
  lemma AcceptsExactly(events: seq<Event>, e: Event, r: Reading, size: nat)
    requires Reads(events, r)
    ensures Budgeted(FramersIn(r.sessions))
    ensures Accepts(r, e, size) <==> EventOk(events, e, size)
  {
    ReadsFramers(events, r);
    FramersAreBudgeted(events);
    assert r.sessions.Keys == OpenIds(events) && |r.sessions| == |r.sessions.Keys|;
    if e.Data? && e.connection in OpenIds(events) {
      ChunkFrames(events, e);
    }
  }

  lemma AcceptedIsRead(events: seq<Event>, e: Event, r: Reading, size: nat)
    requires Reads(events, r) && (r.started || e.Started?)
    requires Budgeted(FramersIn(r.sessions)) && Accepts(r, e, size)
    ensures Reads(events + [e], AfterEvent(r, e, size))
  {
    match e
    case Started(_) => ReadsStarted(events, e, r);
    case Connection(_) => ReadsConnection(events, e, r);
    case Data(_, _, _, _) => ReadsFramers(events, r); ReadsData(events, e, r);
    case Key(_, _) => ReadsKey(events, e, r);
    case End(_, _) => ReadsEnd(events, e, r);
    case Stopped(_, _) => ReadsStopped(events, e, r);
  }

  /** The line continues a well-formed capture of which `r` has been read. */
  ghost predicate LineFits(r: Reading, record: Record, expected: nat, size: nat)
    requires Budgeted(FramersIn(r.sessions))
  {
    && record.schemaVersion == 1 && record.eventSeq == expected < U64_MAX && !r.stopped
    && (r.started || record.event.Started?)
    && (r.pending == [] || record.event.Key?)
    && Accepts(r, record.event, size)
  }

  lemma LineFitsExactly(events: seq<Event>, line: Line, r: Reading, size: nat)
    requires Reads(events, r) && line.Rec?
    ensures Budgeted(FramersIn(r.sessions))
    ensures LineFits(r, line.record, |events| + 1, size) <==> LineOk(events, line, size)
    ensures LineFits(r, line.record, |events| + 1, size) ==>
      Reads(events + [line.record.event], AfterEvent(r, line.record.event, size))
  {
    AcceptsExactly(events, line.record.event, r, size);
    if LineFits(r, line.record, |events| + 1, size) {
      AcceptedIsRead(events, line.record.event, r, size);
    }
  }

  lemma UpdatedTwice(sessions: map<nat, Session>, id: nat, first: Session, second: Session)
    ensures sessions[id := first][id := second] == sessions[id := second]
    ensures sessions[id := first][id] == first
  {
  }

  datatype Outcome = Continue | Break | Fatal

  class Decoder {
    const size: nat
    var records: nat
    var integrityErrors: nat
    var expected: nat
    var started: bool
    var stopped: bool
    var sourceComplete: bool
    var sessions: map<nat, Session>
    var seen: set<nat>
    var pending: seq<Evidence>
    var buffered: nat

    /** On every line: the count is what the open connections' buffers hold, and within the budget. */
    ghost predicate Valid()
      reads this
    {
      && sessions.Keys <= seen
      && Budgeted(FramersIn(sessions))
      && buffered == TotalCapacity(FramersIn(sessions))
      && (integrityErrors == 0 ==> NoneRejected())
    }

    ghost predicate NoneRejected()
      reads this
    {
      forall id :: id in sessions ==> sessions[id].rejected == (false, false)
    }

    ghost function Now(): Reading
      reads this
    {
      Reading(started, seen, sessions, pending, stopped)
    }

    /** The state is what a clean prefix says it is; `next` is the sequence number expected after it. */
    ghost predicate Follows(events: seq<Event>, next: nat)
      reads this
    {
      && expected == next
      && (sourceComplete ==> stopped)
      && Reads(events, Now())
    }

    constructor (size: nat)
      ensures this.size == size && integrityErrors == 0 && records == 0 && Follows([], 1) && !sourceComplete && Valid()
    {
      this.size := size;
      records, integrityErrors, expected, started, stopped, sourceComplete := 0, 0, 1, false, false, false;
      sessions, seen, pending, buffered := map[], {}, [], 0;
    }

    method Integrity()
      modifies this`integrityErrors
      ensures integrityErrors == old(integrityErrors) + 1
    {
      integrityErrors := integrityErrors + 1;
    }

    /** One line of the loop; without earlier errors it stays clean exactly on a well-formed continuation. */
    method Handle(line: Line, ghost events: seq<Event>) returns (outcome: Outcome)
      requires Valid()
      requires integrityErrors == 0 ==> Follows(events, |events| + 1)
      modifies this
      ensures Valid() && integrityErrors >= old(integrityErrors)
      ensures outcome == Break ==> integrityErrors > 0
      ensures outcome == Continue ==> records == old(records) + 1
      ensures old(integrityErrors) == 0 ==>
        (integrityErrors == 0 && outcome == Continue <==> LineOk(events, line, size))
      ensures integrityErrors == 0 && outcome == Continue ==>
        Follows(events + [line.record.event], |events| + 2)
      ensures integrityErrors == 0 && outcome == Continue ==>
        sourceComplete == (line.record.event == Stopped(true, "shutdown"))
    {
      if !line.Rec? {
        Integrity();
        return Break;
      }
      if integrityErrors == 0 {
        LineFitsExactly(events, line, Now(), size);
      }
      outcome := HandleRecord(line.record);
    }

    method HandleRecord(record: Record) returns (outcome: Outcome)
      requires Valid()
      requires integrityErrors == 0 && sourceComplete ==> stopped
      modifies this
      ensures Valid() && integrityErrors >= old(integrityErrors)
      ensures outcome == Break ==> integrityErrors > 0
      ensures outcome == Continue ==> records == old(records) + 1
      ensures old(integrityErrors) == 0 ==>
        (integrityErrors == 0 && outcome == Continue <==> old(LineFits(Now(), record, expected, size)))
      ensures integrityErrors == 0 && outcome == Continue ==>
        && expected == old(expected) + 1
        && Now() == old(AfterEvent(Now(), record.event, size))
        && sourceComplete == (record.event == Stopped(true, "shutdown"))
    {
      records := records + 1;
      if record.schemaVersion != 1 || record.eventSeq != expected || stopped {
        Integrity();
        return Break;
      }
      if expected >= U64_MAX {
        return Fatal;
      }
      expected := expected + 1;
      if !started && !record.event.Started? {
        Integrity();
        return Break;
      }
      if pending != [] && !record.event.Key? {
        Integrity();
        pending := [];
      }
      outcome := Dispatch(record.event);
    }

    method Dispatch(e: Event) returns (outcome: Outcome)
      requires Valid()
      requires integrityErrors == 0 ==> !sourceComplete
      modifies this`integrityErrors, this`started, this`stopped, this`sourceComplete, this`sessions, this`seen
      modifies this`pending, this`buffered
      ensures Valid() && integrityErrors >= old(integrityErrors)
      ensures outcome == Break ==> integrityErrors > 0
      ensures old(integrityErrors) == 0 ==>
        (integrityErrors == 0 && outcome == Continue <==> old(Accepts(Now(), e, size)))
      ensures integrityErrors == 0 && outcome == Continue ==>
        Now() == old(AfterEvent(Now(), e, size)) && sourceComplete == (e == Stopped(true, "shutdown"))
    {
      match e {
        case Started(maxBytes) =>
          outcome := OnStarted(e);
        case Connection(id) =>
          outcome := OnConnection(e);
        case Data(id, direction, offset, payload) =>
          outcome := OnData(e);
        case Key(id, evidence) =>
          OnKey(e);
          outcome := Continue;
        case End(id, reason) =>
          outcome := OnEnd(e);
        case Stopped(complete, reason) =>
          OnStopped(e);
          outcome := Continue;
      }
    }

    method OnStarted(e: Event) returns (outcome: Outcome)
      requires e.Started? && Valid()
      modifies this`integrityErrors, this`started
      ensures Valid() && integrityErrors >= old(integrityErrors)
      ensures outcome == if integrityErrors == old(integrityErrors) then Continue else Break
      ensures outcome == Continue <==> old(Accepts(Now(), e, size))
      ensures outcome == Continue ==> Now() == old(AfterEvent(Now(), e, size))
    {
      if started || e.maxBytes < MIN_CAPTURE || size > e.maxBytes {
        Integrity();
        return Break;
      }
      started := true;
      outcome := Continue;
    }

    method OnConnection(e: Event) returns (outcome: Outcome)
      requires e.Connection? && Valid()
      modifies this`integrityErrors, this`seen, this`sessions
      ensures Valid() && integrityErrors >= old(integrityErrors)
      ensures outcome == if integrityErrors == old(integrityErrors) then Continue else Break
      ensures outcome == Continue <==> old(Accepts(Now(), e, size))
      ensures outcome == Continue ==> Now() == old(AfterEvent(Now(), e, size))
    {
      var id := e.opens;
      if id == 0 || |seen| >= MAX_SEEN {
        Integrity();
        return Break;
      }
      var known := id in seen;
      seen := seen + {id};
      if known || |sessions| >= MAX_ACTIVE {
        Integrity();
        return Break;
      }
      AddSession(id);
      outcome := Continue;
    }

    /** A new connection holds nothing yet. */
    method AddSession(id: nat)
      requires Valid() && id in seen && id !in sessions
      modifies this`sessions
      ensures Valid() && sessions == old(sessions)[id := NEW_SESSION]
    {
      BudgetedNew(FramersIn(sessions), id);
      sessions := sessions[id := NEW_SESSION];
      assert FramersIn(sessions) == FramersIn(old(sessions))[id := NEW_FRAMERS];
    }

    method OnKey(e: Event)
      requires e.Key? && Valid()
      modifies this`integrityErrors, this`pending
      ensures Valid() && integrityErrors >= old(integrityErrors)
      ensures integrityErrors == old(integrityErrors) <==> old(Accepts(Now(), e, size))
      ensures integrityErrors == old(integrityErrors) ==> Now() == old(AfterEvent(Now(), e, size))
    {
      var valid := pending != [] && pending[0] == (e.owner, e.evidence);
      if pending != [] {
        pending := pending[1..];
      }
      if !valid {
        Integrity();
      }
    }

    method OnEnd(e: Event) returns (outcome: Outcome)
      requires e.End? && Valid()
      modifies this`integrityErrors, this`sessions, this`buffered
      ensures Valid() && integrityErrors >= old(integrityErrors)
      ensures outcome == if e.closes in old(sessions) then Continue else Break
      ensures outcome == Break ==> integrityErrors > old(integrityErrors)
      ensures integrityErrors == old(integrityErrors) <==> old(Accepts(Now(), e, size))
      ensures integrityErrors == old(integrityErrors) ==> Now() == old(AfterEvent(Now(), e, size))
    {
      if e.endReason !in END_REASONS {
        Integrity();
      }
      if e.closes !in sessions {
        Integrity();
        return Break;
      }
      RemoveSession(e.closes);
      outcome := Continue;
    }

    /** What a closed connection held is free again. */
    method RemoveSession(id: nat)
      requires Valid() && id in sessions
      modifies this`sessions, this`buffered
      ensures Valid() && sessions == old(sessions) - {id}
    {
      BudgetedWithout(FramersIn(sessions), id);
      buffered := buffered - sessions[id].framers.Capacity();
      sessions := sessions - {id};
      assert FramersIn(sessions) == FramersIn(old(sessions)) - {id};
    }

    method OnStopped(e: Event)
      requires e.Stopped? && Valid()
      modifies this`integrityErrors, this`stopped, this`sourceComplete
      ensures Valid() && integrityErrors >= old(integrityErrors)
      ensures integrityErrors == old(integrityErrors) <==> old(Accepts(Now(), e, size))
      ensures integrityErrors == old(integrityErrors) ==> Now() == old(AfterEvent(Now(), e, size))
      ensures integrityErrors == old(integrityErrors) ==> sourceComplete == (e == Stopped(true, "shutdown"))
    {
      stopped := true;
      sourceComplete := e.complete && e.stopReason == "shutdown" && |sessions| == 0;
      if e.stopReason !in STOP_REASONS || (e.complete && !sourceComplete) {
        Integrity();
      }
    }

    method OnData(e: Event) returns (outcome: Outcome)
      requires e.Data? && Valid()
      modifies this`integrityErrors, this`sessions, this`pending, this`buffered
      ensures Valid() && integrityErrors >= old(integrityErrors)
      ensures outcome != Break
      ensures old(integrityErrors) == 0 ==>
        (integrityErrors == 0 && outcome == Continue <==> old(AcceptsData(Now(), e)))
      ensures integrityErrors == 0 && outcome == Continue ==> Now() == old(AfterData(Now(), e))
    {
      var id, direction := e.connection, e.direction;
      if id !in sessions {
        Integrity();
        return Continue;
      }
      var session := sessions[id];
      if e.payload.None? || !ChunkFits(e.payload.value) {
        Reject(id, direction);
        return Continue;
      }
      outcome := OnChunk(e, e.payload.value);
    }

    method OnChunk(e: Event, bytes: seq<Byte>) returns (outcome: Outcome)
      requires e.Data? && Valid() && e.connection in sessions && e.payload == Some(bytes) && ChunkFits(bytes)
      modifies this`integrityErrors, this`sessions, this`pending, this`buffered
      ensures Valid() && integrityErrors >= old(integrityErrors)
      ensures outcome != Break
      ensures old(integrityErrors) == 0 ==>
        (integrityErrors == 0 && outcome == Continue <==> old(AcceptsData(Now(), e)))
      ensures integrityErrors == 0 && outcome == Continue ==> Now() == old(AfterData(Now(), e))
    {
      var id, direction := e.connection, e.direction;
      if !RejectedOf(sessions[id], direction) && e.offset != OffsetOf(sessions[id], direction) {
        Reject(id, direction);
        outcome := Arrive(id, direction, e.offset + |bytes|);
      } else {
        outcome := OnNextChunk(id, direction, e.offset, bytes);
      }
    }

    /** A chunk that continues its direction, or whose direction was rejected. */
    method OnNextChunk(id: nat, direction: Direction, offset: nat, bytes: seq<Byte>) returns (outcome: Outcome)
      requires Valid() && id in sessions
      modifies this`integrityErrors, this`sessions, this`pending, this`buffered
      ensures Valid() && outcome == if offset + |bytes| > U64_MAX then Fatal else Continue
      ensures integrityErrors
        == old(integrityErrors) + if old(Decoded(FramersIn(sessions), id, direction, bytes)).1 then 1 else 0
      ensures var s, framer := old(sessions)[id], old(Decoded(FramersIn(sessions), id, direction, bytes)).0;
        !RejectedOf(s, direction) && outcome == Continue ==>
          && sessions == old(sessions)[id := Advanced(s, direction, offset, bytes, framer)]
          && pending == old(pending) + Owned(id, TrackerFeed(s.tracker, direction, bytes).1)
    {
      ghost var s, framer := sessions[id], Decoded(FramersIn(sessions), id, direction, bytes).0;
      Follow(id, direction, bytes);
      UpdatedTwice(old(sessions), id, SessionFed(s, direction, bytes, framer),
                   Advanced(s, direction, offset, bytes, framer));
      outcome := Arrive(id, direction, offset + |bytes|);
    }

    /** Where the direction has to continue, unless that is past the 64-bit limit. */
    method Arrive(id: nat, direction: Direction, end: nat) returns (outcome: Outcome)
      requires Valid() && id in sessions
      modifies this`sessions
      ensures Valid() && outcome == if end > U64_MAX then Fatal else Continue
      ensures outcome == Continue ==> sessions == old(sessions)[id := WithOffset(old(sessions)[id], direction, end)]
    {
      if end > U64_MAX {
        return Fatal;
      }
      sessions := sessions[id := WithOffset(sessions[id], direction, end)];
      assert FramersIn(sessions) == FramersIn(old(sessions));
      outcome := Continue;
    }

    /** Gives up on a direction: its packet decoder lets go of its buffer. */
    method Reject(id: nat, direction: Direction)
      requires Valid() && id in sessions
      modifies this`integrityErrors, this`sessions, this`buffered
      ensures Valid() && integrityErrors == old(integrityErrors) + 1 && sessions.Keys == old(sessions).Keys
    {
      Integrity();
      RejectedFits(FramersIn(sessions), id, direction);
      Put(id, WithRejected(sessions[id], direction), direction, Rejected(sessions[id].framers.Of(direction)));
    }

    /** A chunk goes to the handshake tracker, unless its direction was rejected, and to the packet decoder. */
    method Follow(id: nat, direction: Direction, bytes: seq<Byte>)
      requires Valid() && id in sessions
      modifies this`integrityErrors, this`sessions, this`pending, this`buffered
      ensures Valid() && sessions.Keys == old(sessions).Keys
      ensures integrityErrors
        == old(integrityErrors) + if old(Decoded(FramersIn(sessions), id, direction, bytes)).1 then 1 else 0
      ensures var s, framer := old(sessions)[id], old(Decoded(FramersIn(sessions), id, direction, bytes)).0;
        !RejectedOf(s, direction) ==>
          && sessions == old(sessions)[id := SessionFed(s, direction, bytes, framer)]
          && pending == old(pending) + Owned(id, TrackerFeed(s.tracker, direction, bytes).1)
    {
      var session := sessions[id];
      var framer, over := FeedChunk(id, direction, bytes);
      if !RejectedOf(session, direction) {
        var (tracker, snapshots) := TrackerFeed(session.tracker, direction, bytes);
        session := session.(tracker := tracker);
        pending := pending + Owned(id, snapshots);
      }
      Put(id, session, direction, framer);
      if over {
        Integrity();
      }
    }

    /** Feeds the packet decoder within what the others leave it; the subtraction cannot go below zero. */
    method FeedChunk(id: nat, direction: Direction, bytes: seq<Byte>) returns (framer: Framer, over: bool)
      requires Valid() && id in sessions
      ensures framer.Valid() && framer.capacity <= Room(FramersIn(sessions), id, direction)
      ensures (framer, over) == Decoded(FramersIn(sessions), id, direction, bytes)
    {
      var before := sessions[id].framers.Of(direction);
      TotalWithout(FramersIn(sessions), id);
      var limit := MAX_BUFFERED - (buffered - before.capacity);
      DecodedFits(FramersIn(sessions), id, direction, bytes);
      var (fed, full) := FeedFramer(before, bytes, limit);
      return fed, full;
    }

    /** Stores a session with a packet decoder replaced, and counts what its buffer now holds. */
    method Put(id: nat, session: Session, direction: Direction, framer: Framer)
      requires Valid() && id in sessions && session.framers == sessions[id].framers
      requires framer.Valid() && framer.capacity <= Room(FramersIn(sessions), id, direction)
      requires integrityErrors == 0 ==> session.rejected == (false, false)
      modifies this`sessions, this`buffered
      ensures Valid()
      ensures sessions == old(sessions)[id := session.(framers := session.framers.With(direction, framer))]
    {
      var open := FramersIn(sessions);
      BudgetedWith(open, id, direction, framer);
      TotalWithout(open, id);
      buffered := buffered - session.framers.Of(direction).capacity + framer.capacity;
      sessions := sessions[id := session.(framers := session.framers.With(direction, framer))];
      assert FramersIn(sessions) == open[id := session.framers.With(direction, framer)];
    }
  }

  // Whole captures

  datatype Report = Report(records: nat, integrityErrors: nat, complete: bool)

  lemma EventsPrefix(lines: seq<Line>, k: nat)
    requires AllRecords(lines) && k <= |lines|
    ensures AllRecords(lines[..k]) && Events(lines[..k]) == Events(lines)[..k]
  {
    forall line | line in lines[..k] ensures line.Rec? { assert line in lines; }
  }

  lemma AllOkExtends(lines: seq<Line>, line: Line, size: nat)
    requires AllOk(lines, size) && LineOk(Events(lines), line, size)
    ensures AllOk(lines + [line], size)
    ensures Events(lines + [line]) == Events(lines) + [line.record.event]
  {
    var longer := lines + [line];
    assert Events(longer) == Events(lines) + [line.record.event];
    forall k | 0 <= k < |longer| ensures LineOk(Events(longer)[..k], longer[k], size) {
      assert Events(longer)[..k] == Events(lines)[..k];
      if k < |lines| {
        assert longer[k] == lines[k];
      } else {
        assert Events(lines)[..k] == Events(lines);
      }
    }
  }

  lemma AllOkLine(lines: seq<Line>, k: nat, size: nat)
    requires AllOk(lines, size) && k < |lines|
    ensures AllRecords(lines[..k]) && LineOk(Events(lines[..k]), lines[k], size)
  {
    EventsPrefix(lines, k);
  }

  /** The loop after `done`: clean so far and up to date, or some line was not well formed. */
  ghost predicate Replayed(decoder: Decoder, done: seq<Line>, lines: seq<Line>)
    reads decoder
  {
    if decoder.integrityErrors > 0 then !AllOk(lines, decoder.size)
    else
      && AllOk(done, decoder.size)
      && decoder.Follows(Events(done), |done| + 1)
      && decoder.records == |done|
      && decoder.sourceComplete == LastWasShutdown(Events(done))
  }

  /** One more clean line, or none ever. */
  lemma AllOkNext(lines: seq<Line>, k: nat, size: nat)
    requires k < |lines| && AllOk(lines[..k], size)
    ensures LineOk(Events(lines[..k]), lines[k], size) ==>
      && AllOk(lines[..k + 1], size)
      && Events(lines[..k + 1]) == Events(lines[..k]) + [lines[k].record.event]
    ensures !LineOk(Events(lines[..k]), lines[k], size) ==> !AllOk(lines, size)
  {
    if LineOk(Events(lines[..k]), lines[k], size) {
      AllOkExtends(lines[..k], lines[k], size);
      assert lines[..k + 1] == lines[..k] + [lines[k]];
    } else if AllOk(lines, size) {
      AllOkLine(lines, k, size);
    }
  }

  /** The record loop; it is cut short only by a line that is not well formed. */
  method Replay(decoder: Decoder, lines: seq<Line>) returns (fatal: bool)
    requires decoder.Valid() && decoder.integrityErrors == 0 && decoder.records == 0
    requires decoder.Follows([], 1) && !decoder.sourceComplete
    modifies decoder
    ensures decoder.Valid()
    ensures fatal ==> !AllOk(lines, decoder.size)
    ensures !fatal ==> Replayed(decoder, lines, lines)
  {
    var k := 0;
    while k < |lines|
      invariant 0 <= k <= |lines|
      invariant decoder.Valid() && Replayed(decoder, lines[..k], lines)
    {
      ghost var clean := decoder.integrityErrors == 0;
      ghost var events := if clean then Events(lines[..k]) else [];
      if clean {
        AllOkNext(lines, k, decoder.size);
      }
      var outcome := decoder.Handle(lines[k], events);
      if outcome == Fatal {
        return true;
      }
      if outcome == Break {
        return false;
      }
      k := k + 1;
    }
    fatal := false;
    assert lines[..k] == lines;
  }

  /** The capture is reported complete exactly when it is well formed and is the file that was hashed. */
  method Run(lines: seq<Line>, size: nat, digestMatches: bool) returns (report: Option<Report>)
    ensures WellFormedCapture(lines, size) ==> report.Some?
    ensures report.Some? ==> (report.value.complete <==> WellFormedCapture(lines, size) && digestMatches)
    ensures report.Some? && report.value.complete ==>
      report.value.integrityErrors == 0 && report.value.records == |lines|
  {
    var decoder := new Decoder(size);
    var fatal := Replay(decoder, lines);
    if fatal {
      return None;
    }
    if decoder.integrityErrors == 0 && LastWasShutdown(Events(lines)) {
      ShutdownStops(Events(lines));
    }
    if !digestMatches {
      decoder.Integrity();
    }
    if !decoder.started || !decoder.stopped {
      decoder.Integrity();
    }
    if decoder.pending != [] {
      decoder.Integrity();
    }
    var complete := decoder.sourceComplete && decoder.integrityErrors == 0;
    report := Some(Report(decoder.records, decoder.integrityErrors, complete));
  }

  lemma ShutdownStops(events: seq<Event>)
    requires LastWasShutdown(events)
    ensures HasStopped(events)
  {
    assert events[|events| - 1] in events;
  }

  // What well-formedness gives

  /** The only open connection has room for whatever it carries, so the budget decides nothing about it. */
  lemma AloneNeverOverruns(events: seq<Event>, id: nat, direction: Direction, chunk: seq<Byte>)
    requires OpenIds(events) == {id}
    ensures !Overruns(Received(events, id, direction), chunk, RoomAfter(events, id, direction))
  {
    FramersAreBudgeted(events);
    AloneIsEnough(FramersOf(events), id, direction, Received(events, id, direction), chunk);
  }

  predicate IsEvidence(e: Event, key: Evidence) {
    e.Key? && e.owner == key.0 && e.evidence == key.1
  }

  lemma OwedAfterData(events: seq<Event>, e: Event)
    requires e.Data? && Owed(events) == []
    ensures Owed(events + [e]) == KeysOf(events, e)
  {
    Append(events, e);
    assert [] + KeysOf(events, e) == KeysOf(events, e);
  }

  /** While key records are owed, an event is the first of them; otherwise it is no key record. */
  ghost predicate Pays(e: Event, owed: seq<Evidence>, after: seq<Evidence>) {
    if owed == [] then !e.Key? else IsEvidence(e, owed[0]) && after == owed[1..]
  }

  lemma CleanPays(lines: seq<Line>, size: nat, k: nat)
    requires AllOk(lines, size) && k < |lines|
    ensures var events := Events(lines); Pays(events[k], Owed(events[..k]), Owed(events[..k + 1]))
  {
    At(lines, size, k);
    Append(Events(lines)[..k], Events(lines)[k]);
  }

  /** Once some key records are owed, the next j events are the first j of them. */
  lemma {:induction false} OwedIsPaid(events: seq<Event>, owed: seq<seq<Evidence>>, i: nat, j: nat)
    requires |owed| == |events| + 1 && i + j <= |events| && j <= |owed[i]|
    requires forall k :: 0 <= k < |events| ==> Pays(events[k], owed[k], owed[k + 1])
    ensures owed[i + j] == owed[i][j..]
    ensures forall n :: 0 <= n < j ==> IsEvidence(events[i + n], owed[i][n])
    ensures j > 0 ==> events[i + j - 1].Key?
    decreases j
  {
    if j > 0 {
      OwedIsPaid(events, owed, i, j - 1);
      var last := i + j - 1;
      assert Pays(events[last], owed[last], owed[last + 1]);
      assert owed[i][j - 1..][1..] == owed[i][j..];
    }
  }

  /** The key records directly after event i are exactly `keys`. */
  ghost predicate FollowedBy(events: seq<Event>, i: nat, keys: seq<Evidence>) {
    && i + 1 + |keys| < |events|
    && (forall n :: 0 <= n < |keys| ==> IsEvidence(events[i + 1 + n], keys[n]))
    && !events[i + 1 + |keys|].Key?
  }

  lemma OwedIsPaidInFull(events: seq<Event>, owed: seq<seq<Evidence>>, i: nat)
    requires |owed| == |events| + 1 && i < |events|
    requires forall k :: 0 <= k < |events| ==> Pays(events[k], owed[k], owed[k + 1])
    requires !events[i].Stopped? && events[|events| - 1].Stopped?
    requires owed[|events|] == []
    ensures FollowedBy(events, i, owed[i + 1])
  {
    var count := |owed[i + 1]|;
    if |events| - i - 1 <= count {
      OwedIsPaid(events, owed, i + 1, |events| - i - 1);
      assert false;
    }
    OwedIsPaid(events, owed, i + 1, count);
    assert Pays(events[i + 1 + count], owed[i + 1 + count], owed[i + 1 + count + 1]);
  }

  /** What is owed before each event of a clean capture, and at its end. */
  lemma OwedTrail(lines: seq<Line>, size: nat) returns (owed: seq<seq<Evidence>>)
    requires AllOk(lines, size)
    ensures |owed| == |lines| + 1
    ensures forall k :: 0 <= k <= |lines| ==> owed[k] == Owed(Events(lines)[..k])
    ensures forall k :: 0 <= k < |lines| ==> Pays(Events(lines)[k], owed[k], owed[k + 1])
  {
    var events := Events(lines);
    owed := seq(|events| + 1, k requires 0 <= k <= |events| => Owed(events[..k]));
    forall k | 0 <= k < |events| ensures Pays(events[k], owed[k], owed[k + 1]) { CleanPays(lines, size, k); }
  }

  lemma OwedIsDelivered(lines: seq<Line>, size: nat, i: nat)
    requires WellFormedCapture(lines, size) && i < |lines| && Events(lines)[i].Data?
    ensures FollowedBy(Events(lines), i, Owed(Events(lines)[..i + 1]))
  {
    var events := Events(lines);
    var owed := OwedTrail(lines, size);
    assert events[..|events|] == events;
    OwedIsPaidInFull(events, owed, i);
  }

  lemma DataOwesItsKeys(lines: seq<Line>, size: nat, i: nat)
    requires AllOk(lines, size) && i < |lines| && Events(lines)[i].Data?
    ensures Owed(Events(lines)[..i + 1]) == KeysOf(Events(lines)[..i], Events(lines)[i])
  {
    At(lines, size, i);
    OwedAfterData(Events(lines)[..i], Events(lines)[i]);
  }

  /** In a well-formed capture every piece of data is followed by exactly the key records its tracker produces. */
  lemma DataKeysDelivered(lines: seq<Line>, size: nat, i: nat)
    requires WellFormedCapture(lines, size) && i < |lines| && Events(lines)[i].Data?
    ensures FollowedBy(Events(lines), i, KeysOf(Events(lines)[..i], Events(lines)[i]))
  {
    OwedIsDelivered(lines, size, i);
    DataOwesItsKeys(lines, size, i);
  }

  /** Lines and events of a clean capture, one position at a time. */
  lemma At(lines: seq<Line>, size: nat, k: nat)
    requires AllOk(lines, size) && k < |lines|
    ensures LineOk(Events(lines)[..k], lines[k], size)
    ensures Events(lines)[k] == lines[k].record.event
    ensures Events(lines)[..k + 1] == Events(lines)[..k] + [Events(lines)[k]]
  {
  }

  /** A well-formed capture starts once, ends once, and leaves no connection open. */
  lemma WellFormedShape(lines: seq<Line>, size: nat)
    requires WellFormedCapture(lines, size)
    ensures OpenIds(Events(lines)) == {}
    ensures forall k :: 0 <= k < |lines| ==> (Events(lines)[k].Started? <==> k == 0)
    ensures forall k :: 0 <= k < |lines| ==> (Events(lines)[k].Stopped? <==> k == |lines| - 1)
  {
    var events := Events(lines);
    var n := |lines| - 1;
    At(lines, size, n);
    Append(events[..n], events[n]);
    assert events == events[..n] + [events[n]];
    forall k | 0 <= k < |lines|
      ensures events[k].Started? <==> k == 0
    {
      At(lines, size, k);
    }
    forall k | 0 <= k < n
      ensures !events[k].Stopped?
    {
      At(lines, size, k + 1);
      assert events[..k + 1][k] == events[k];
    }
  }
}

/** One connection's tracker, and what it reports for a well-formed stream. */
module KeyTrackers {
  import opened Prelude
  import opened Wire
  import opened Keys

  datatype Tracker = Tracker(upload: Parser, download: Parser, keys: KeyState)
  {
    function Of(direction: Direction): Parser {
      if direction == Upload then upload else download
    }
  }

  const NEW_TRACKER: Tracker := Tracker(Idle(0), Idle(0), NO_KEYS)

  predicate TrackerSettled(t: Tracker) {
    Settled(t.upload) && Settled(t.download)
  }

  function TrackerFeed(t: Tracker, direction: Direction, bytes: seq<Byte>): (Tracker, seq<KeySnapshot>) {
    var fed := Feed(direction, t.Of(direction), t.keys, bytes);
    (if direction == Upload then Tracker(fed.parser, t.download, fed.keys) else Tracker(t.upload, fed.parser, fed.keys),
     fed.output)
  }

  class KeyTracker {
    const upload: Stream
    const download: Stream
    const keys: KeyStateCell

    ghost predicate Valid()
      reads upload, download
    {
      upload != download && Settled(upload.State()) && Settled(download.State())
    }

    ghost function Value(): Tracker
      reads upload, download, keys
    {
      Tracker(upload.State(), download.State(), keys.Value())
    }

    constructor ()
      ensures Valid() && Value() == NEW_TRACKER
      ensures fresh(upload) && fresh(download) && fresh(keys)
    {
      upload := new Stream();
      download := new Stream();
      keys := new KeyStateCell();
    }

    method Observe(direction: Direction, bytes: seq<Byte>) returns (output: seq<KeySnapshot>)
      requires Valid()
      modifies upload, download, keys
      ensures Valid()
      ensures (Value(), output) == TrackerFeed(old(Value()), direction, bytes)
    {
      match direction {
        case Upload => output := upload.Observe(direction, bytes, keys);
        case Download => output := download.Observe(direction, bytes, keys);
      }
    }
  }

  // Whole runs over both directions

  type Trace = seq<(Direction, seq<Byte>)>

  function RunTracker(t: Tracker, trace: Trace): (Tracker, seq<KeySnapshot>)
    decreases |trace|
  {
    if trace == [] then (t, [])
    else
      var (next, first) := TrackerFeed(t, trace[0].0, trace[0].1);
      var (last, rest) := RunTracker(next, trace[1..]);
      (last, first + rest)
  }

  function ThenRun(done: (Tracker, seq<KeySnapshot>), trace: Trace): (Tracker, seq<KeySnapshot>) {
    var (last, rest) := RunTracker(done.0, trace);
    (last, done.1 + rest)
  }

  lemma {:induction false} RunConcat(t: Tracker, a: Trace, b: Trace)
    ensures RunTracker(t, a + b) == ThenRun(RunTracker(t, a), b)
    decreases |a|
  {
    if a == [] {
      assert a + b == b;
      assert [] + RunTracker(t, b).1 == RunTracker(t, b).1;
    } else {
      var (next, first) := TrackerFeed(t, a[0].0, a[0].1);
      assert (a + b)[0] == a[0] && (a + b)[1..] == a[1..] + b;
      RunConcat(next, a[1..], b);
      var (middle, second) := RunTracker(next, a[1..]);
      var third := RunTracker(middle, b).1;
      assert first + (second + third) == (first + second) + third;
    }
  }

  lemma RunOne(t: Tracker, direction: Direction, bytes: seq<Byte>)
    ensures RunTracker(t, [(direction, bytes)]) == TrackerFeed(t, direction, bytes)
  {
    var trace := [(direction, bytes)];
    var (next, first) := TrackerFeed(t, direction, bytes);
    assert trace[1..] == [];
    assert first + [] == first;
  }

  lemma CutOnce(t: Tracker, direction: Direction, a: seq<Byte>, b: seq<Byte>)
    ensures RunTracker(t, [(direction, a + b)]) == RunTracker(t, [(direction, a), (direction, b)])
  {
    FeedConcat(direction, t.Of(direction), t.keys, a, b);
    RunOne(t, direction, a + b);
    RunOne(t, direction, a);
    RunOne(TrackerFeed(t, direction, a).0, direction, b);
    RunConcat(t, [(direction, a)], [(direction, b)]);
    assert [(direction, a)] + [(direction, b)] == [(direction, a), (direction, b)];
  }

  /** Cutting a chunk in two changes nothing, wherever it stands in the run. */
  lemma TrackerFragmentation(t: Tracker, before: Trace, direction: Direction, a: seq<Byte>, b: seq<Byte>, after: Trace)
    ensures RunTracker(t, before + [(direction, a + b)] + after)
         == RunTracker(t, before + [(direction, a), (direction, b)] + after)
  {
    var whole, cut := [(direction, a + b)], [(direction, a), (direction, b)];
    RunConcat(t, before, whole);
    RunConcat(t, before, cut);
    CutOnce(RunTracker(t, before).0, direction, a, b);
    RunConcat(t, before + whole, after);
    RunConcat(t, before + cut, after);
  }

  // Which key is held

  /** The key state is that of the latest handshake, whichever direction it came from. */
  predicate MatchesLatest(k: KeyState, history: seq<KeySnapshot>) {
    if history == [] then k == NO_KEYS
    else
      var last := history[|history| - 1];
      && k.keyMethod == last.keyMethod && k.encryption == last.encMethod && k.key == last.key
      && k.reference == Some((last.direction, last.offset, last.sourceSequence))
  }

  /** Only a method-2 acknowledgement carries a key, and then a full one. */
  predicate SoundSnapshot(s: KeySnapshot) {
    s.key.Some? ==> s.direction == Download && s.keyMethod == 2 && |s.key.value| == KEY_LEN
  }

  /** A step keeps the key state that of the latest handshake, and reports only sound snapshots. */
  predicate KeysFollow(history: seq<KeySnapshot>, k: KeyState, output: seq<KeySnapshot>) {
    MatchesLatest(k, history + output) && forall s :: s in output ==> SoundSnapshot(s)
  }

  lemma FollowNothing(history: seq<KeySnapshot>, k: KeyState)
    requires MatchesLatest(k, history)
    ensures KeysFollow(history, k, [])
  {
    assert history + [] == history;
  }

  lemma FollowBoth(history: seq<KeySnapshot>, k: KeyState, a: seq<KeySnapshot>, b: seq<KeySnapshot>)
    requires forall s :: s in a ==> SoundSnapshot(s)
    requires KeysFollow(history + a, k, b)
    ensures KeysFollow(history, k, a + b)
  {
    assert history + (a + b) == (history + a) + b;
  }

  lemma ObservedFollows(
      history: seq<KeySnapshot>, k: KeyState, direction: Direction, offset: nat, header: Header, extension: seq<Byte>)
    requires IsHandshake(direction, header.command)
    ensures var k' := ObserveHandshake(k, direction, offset, header, extension);
      KeysFollow(history, k', [SnapshotOf(k', direction, offset, header)])
  {
    var k' := ObserveHandshake(k, direction, offset, header, extension);
    var longer := history + [SnapshotOf(k', direction, offset, header)];
    assert longer[|longer| - 1] == SnapshotOf(k', direction, offset, header);
  }

  lemma SettleKeys(direction: Direction, p: Parser, k: KeyState, history: seq<KeySnapshot>)
    requires MatchesLatest(k, history)
    ensures KeysFollow(history, Settle(direction, p, k).keys, Settle(direction, p, k).output)
  {
    FollowNothing(history, k);
    if p.header.Some? && |p.prefix| >= HEADER_LEN && IsHandshake(direction, p.header.value.command) {
      ObservedFollows(history, k, direction, p.offset, p.header.value, p.prefix[HEADER_LEN..]);
    }
  }

  lemma FeedByteKeys(direction: Direction, p: Parser, k: KeyState, b: Byte, history: seq<KeySnapshot>)
    requires MatchesLatest(k, history)
    ensures KeysFollow(history, FeedByte(direction, p, k, b).keys, FeedByte(direction, p, k, b).output)
  {
    FollowNothing(history, k);
    var q := Push(p, b);
    SettleKeys(direction, q, k, history);
    if Parse(q.prefix).Ok? {
      SettleKeys(direction, q.(header := Some(Parse(q.prefix).header)), k, history);
    }
  }

  lemma {:induction false} FeedKeys(
      direction: Direction, p: Parser, k: KeyState, bytes: seq<Byte>, history: seq<KeySnapshot>)
    requires MatchesLatest(k, history)
    ensures KeysFollow(history, Feed(direction, p, k, bytes).keys, Feed(direction, p, k, bytes).output)
    decreases |bytes|
  {
    if bytes == [] {
      FollowNothing(history, k);
    } else {
      var first := FeedByte(direction, p, k, bytes[0]);
      FeedByteKeys(direction, p, k, bytes[0], history);
      FeedFront(direction, p, k, bytes);
      FeedKeys(direction, first.parser, first.keys, bytes[1..], history + first.output);
      var rest := Feed(direction, first.parser, first.keys, bytes[1..]);
      FollowBoth(history, rest.keys, first.output, rest.output);
    }
  }

  lemma {:induction false} RunKeys(t: Tracker, trace: Trace, history: seq<KeySnapshot>)
    requires TrackerSettled(t) && MatchesLatest(t.keys, history)
    ensures TrackerSettled(RunTracker(t, trace).0)
    ensures KeysFollow(history, RunTracker(t, trace).0.keys, RunTracker(t, trace).1)
    decreases |trace|
  {
    if trace == [] {
      FollowNothing(history, t.keys);
    } else {
      var (direction, bytes) := trace[0];
      var (next, first) := TrackerFeed(t, direction, bytes);
      FeedKeys(direction, t.Of(direction), t.keys, bytes, history);
      FeedSettles(direction, t.Of(direction), t.keys, bytes);
      RunKeys(next, trace[1..], history + first);
      var (last, rest) := RunTracker(next, trace[1..]);
      FollowBoth(history, last.keys, first, rest);
    }
  }

  /** In every run a key is held only after a full method-2 acknowledgement, and only until the next handshake. */
  lemma KeyHeldOnlyByLatest(trace: Trace, t: Tracker, output: seq<KeySnapshot>)
    requires (t, output) == RunTracker(NEW_TRACKER, trace)
    ensures TrackerSettled(t) && MatchesLatest(t.keys, output)
    ensures t.keys.key.Some? ==> output != [] && IsFullKey(output[|output| - 1], t.keys.key.value)
  {
    RunKeys(NEW_TRACKER, trace, []);
    assert [] + output == output;
    if output != [] { assert output[|output| - 1] in output; }
  }

  /** The snapshot of a method-2 acknowledgement that carried this 16-byte key. */
  predicate IsFullKey(s: KeySnapshot, key: seq<Byte>) {
    s.direction == Download && s.keyMethod == 2 && |key| == KEY_LEN && s.key == Some(key)
  }

  // Well-formed streams

  /** What one packet does to the keys, and the snapshot it gives if it is a handshake. */
  function PacketEffect(direction: Direction, p: Packet, offset: nat, k: KeyState): (KeyState, seq<KeySnapshot>) {
    if IsHandshake(direction, p.command) then
      var k' := ObserveHandshake(k, direction, offset, p.HeaderOf(), p.extension);
      (k', [SnapshotOf(k', direction, offset, p.HeaderOf())])
    else (k, [])
  }

  function Expected(direction: Direction, packets: seq<Packet>, offset: nat, k: KeyState): Fed {
    if packets == [] then Fed(Idle(offset), k, [])
    else
      var (next, output) := PacketEffect(direction, packets[0], offset, k);
      Prepend(output, Expected(direction, packets[1..], offset + packets[0].Length(), next))
  }

  /** The buffered part of an extension decides as much as all of it. */
  lemma PrefixSuffices(
      k: KeyState, direction: Direction, offset: nat, header: Header, extension: seq<Byte>, buffered: seq<Byte>)
    requires buffered == if |extension| < OBSERVED_EXTENSION then extension else extension[..OBSERVED_EXTENSION]
    ensures ObserveHandshake(k, direction, offset, header, buffered) ==
      ObserveHandshake(k, direction, offset, header, extension)
  {
    if |extension| >= OBSERVED_EXTENSION {
      assert buffered[2..18] == extension[2..18];
    }
  }

  lemma FeedPacket(direction: Direction, p: Packet, offset: nat, k: KeyState)
    requires WellFormedPacket(p)
    ensures var (next, output) := PacketEffect(direction, p, offset, k);
      Feed(direction, Idle(offset), k, Encode(p)) == Fed(Idle(offset + p.Length()), next, output)
  {
    var header := p.HeaderOf();
    var head := EncodeHeader(p);
    var rest := p.extension + p.body;
    assert Encode(p) == head + rest;
    WantedBounds(header);
    var begun := Appended(Idle(offset), head).(header := Some(header));
    assert begun.prefix == head;
    CompleteHeader(direction, Idle(offset), k, head);
    ParseEncoded(p);
    assert Interpret(direction, Appended(Idle(offset), head), k) == Settle(direction, begun, k);
    FeedConcat(direction, Idle(offset), k, head, rest);
    FeedOpened(direction, p, begun, k);
  }

  lemma FeedOpened(direction: Direction, p: Packet, begun: Parser, k: KeyState)
    requires WellFormedPacket(p)
    requires begun == Parser(EncodeHeader(p), Some(p.HeaderOf()), HEADER_LEN, begun.offset, false, false)
    ensures var (next, output) := PacketEffect(direction, p, begun.offset, k);
      Then(direction, Settle(direction, begun, k), p.extension + p.body)
        == Fed(Idle(begun.offset + p.Length()), next, output)
  {
    var header := p.HeaderOf();
    WantedBounds(header);
    var size := Wanted(header) - HEADER_LEN;
    var buffered, skipped := p.extension[..size], p.extension[size..] + p.body;
    assert p.extension + p.body == buffered + skipped;
    ThenConcat(direction, Settle(direction, begun, k), buffered, skipped);
    FillExtension(direction, begun, k, buffered);
    var full := Appended(begun, buffered);
    assert full.prefix[HEADER_LEN..] == buffered;
    SettleObserves(direction, full, k);
    if IsHandshake(direction, p.command) {
      PrefixSuffices(k, direction, begun.offset, header, p.extension, buffered);
    }
    var (next, output) := PacketEffect(direction, p, begun.offset, k);
    PrependThen(direction, output, Settle(direction, Seen(full), next), skipped);
    SkipBody(direction, Seen(full), next, skipped);
    assert output + [] == output;
    assert Prepend([], Settle(direction, Seen(full), next)) == Settle(direction, Seen(full), next) by {
      assert [] + Settle(direction, Seen(full), next).output == Settle(direction, Seen(full), next).output;
    }
  }

  /** Feeding the encoding of any packet list gives exactly the expected snapshots and state. */
  lemma {:induction false} RoundTrip(direction: Direction, packets: seq<Packet>, offset: nat, k: KeyState)
    requires forall p :: p in packets ==> WellFormedPacket(p)
    ensures Feed(direction, Idle(offset), k, EncodeAll(packets)) == Expected(direction, packets, offset, k)
    decreases |packets|
  {
    if packets != [] {
      var p := packets[0];
      var (next, output) := PacketEffect(direction, p, offset, k);
      FeedPacket(direction, p, offset, k);
      FeedConcat(direction, Idle(offset), k, Encode(p), EncodeAll(packets[1..]));
      RoundTrip(direction, packets[1..], offset + p.Length(), next);
    }
  }

  /** The same in any chunking. */
  lemma RoundTripInChunks(direction: Direction, packets: seq<Packet>, k: KeyState, chunks: seq<seq<Byte>>)
    requires forall p :: p in packets ==> WellFormedPacket(p)
    requires Flatten(chunks) == EncodeAll(packets)
    ensures FeedChunks(direction, Fed(Idle(0), k, []), chunks) == Expected(direction, packets, 0, k)
  {
    FragmentationInsensitive(direction, Fed(Idle(0), k, []), chunks);
    RoundTrip(direction, packets, 0, k);
    assert [] + Expected(direction, packets, 0, k).output == Expected(direction, packets, 0, k).output;
  }

  /** Where the handshakes of a packet list start: after the encoding of everything before them. */
  function HandshakeOffsets(direction: Direction, packets: seq<Packet>): seq<nat>
    requires forall p :: p in packets ==> WellFormedPacket(p)
  {
    if packets == [] then []
    else
      var last := packets[|packets| - 1];
      var before := packets[..|packets| - 1];
      HandshakeOffsets(direction, before) + if IsHandshake(direction, last.command) then [|EncodeAll(before)|] else []
  }

  function Offsets(output: seq<KeySnapshot>): seq<nat> {
    seq(|output|, i requires 0 <= i < |output| => output[i].offset)
  }

  /** The expected effect of one more packet at the end. */
  function OneMore(direction: Direction, f: Fed, last: Packet, offset: nat): Fed {
    var (next, output) := PacketEffect(direction, last, offset, f.keys);
    Fed(Idle(offset + last.Length()), next, f.output + output)
  }

  lemma PrependOneMore(direction: Direction, first: seq<KeySnapshot>, f: Fed, last: Packet, offset: nat)
    ensures Prepend(first, OneMore(direction, f, last, offset)) == OneMore(direction, Prepend(first, f), last, offset)
  {
    var output := PacketEffect(direction, last, offset, f.keys).1;
    assert first + (f.output + output) == (first + f.output) + output;
  }

  function TotalLength(packets: seq<Packet>): nat {
    if packets == [] then 0 else packets[0].Length() + TotalLength(packets[1..])
  }

  lemma {:induction false} EncodedLength(packets: seq<Packet>)
    requires forall p :: p in packets ==> WellFormedPacket(p)
    ensures |EncodeAll(packets)| == TotalLength(packets)
  {
    if packets != [] {
      EncodedLength(packets[1..]);
    }
  }

  lemma {:induction false} ExpectedSnoc(
      direction: Direction, packets: seq<Packet>, last: Packet, offset: nat, k: KeyState)
    ensures Expected(direction, packets + [last], offset, k)
         == OneMore(direction, Expected(direction, packets, offset, k), last, offset + TotalLength(packets))
    decreases |packets|
  {
    var longer := packets + [last];
    if packets == [] {
      assert longer[1..] == [];
      var (next, output) := PacketEffect(direction, last, offset, k);
      assert output + [] == output && [] + output == output;
    } else {
      var (next, output) := PacketEffect(direction, packets[0], offset, k);
      var rest := packets[1..];
      assert longer[0] == packets[0] && longer[1..] == rest + [last];
      ExpectedSnoc(direction, rest, last, offset + packets[0].Length(), next);
      PrependOneMore(direction, output, Expected(direction, rest, offset + packets[0].Length(), next), last,
                     offset + TotalLength(packets));
    }
  }

  /** One snapshot per handshake of the direction, each at the length of what precedes it. */
  lemma {:induction false} OneSnapshotPerHandshake(direction: Direction, packets: seq<Packet>, k: KeyState)
    requires forall p :: p in packets ==> WellFormedPacket(p)
    ensures Offsets(Expected(direction, packets, 0, k).output) == HandshakeOffsets(direction, packets)
    ensures Expected(direction, packets, 0, k).parser == Idle(|EncodeAll(packets)|)
    decreases |packets|
  {
    if packets != [] {
      var n := |packets| - 1;
      var before, last := packets[..n], packets[n];
      assert packets == before + [last];
      OneSnapshotPerHandshake(direction, before, k);
      ExpectedSnoc(direction, before, last, 0, k);
      EncodedLength(before);
      EncodedLength(packets);
      TotalLengthSnoc(before, last);
    }
  }

  lemma {:induction false} TotalLengthSnoc(packets: seq<Packet>, last: Packet)
    ensures TotalLength(packets + [last]) == TotalLength(packets) + last.Length()
    decreases |packets|
  {
    var longer := packets + [last];
    if packets == [] {
      assert longer[1..] == [];
    } else {
      assert longer[0] == packets[0] && longer[1..] == packets[1..] + [last];
      TotalLengthSnoc(packets[1..], last);
    }
  }
}

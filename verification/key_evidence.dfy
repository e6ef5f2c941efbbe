/** What the handshakes of a connection put on record, byte by byte (crates/ferrum2-rocom/src/keys.rs). */
module KeyEvidence {
  import opened Prelude
  import opened Wire
  import opened Keys
  import opened KeyTrackers

  /** An acknowledgement's extension that carries this key: method 2, its length, and the bytes themselves. */
  ghost predicate Carries(extension: seq<Byte>, key: seq<Byte>) {
    |key| == 16 && exists tail :: extension == [2, 16] + key + tail
  }

  lemma CarriesBytes(extension: seq<Byte>, key: seq<Byte>)
    requires Carries(extension, key)
    ensures HasFullKey(extension) && extension[2..18] == key
  {
    var tail :| extension == [2, 16] + key + tail;
    assert extension[2..18] == key;
  }

  lemma FullCarries(extension: seq<Byte>)
    requires HasFullKey(extension)
    ensures Carries(extension, extension[2..18])
  {
    assert extension == [2, 16] + extension[2..18] + extension[18..];
  }

  /** The one snapshot of a handshake, up to its key and its encryption. */
  ghost predicate SnapshotAt(s: KeySnapshot, direction: Direction, p: Packet, offset: nat) {
    && s.direction == direction && s.offset == offset && s.sourceSequence == p.sequence
    && s.keyMethod == if p.extension == [] then 0 else p.extension[0]
  }

  /** An acknowledgement at a packet boundary reports the sixteen key bytes it carries, if it does carry a key. */
  lemma AckReportsKey(p: Packet, offset: nat, k: KeyState)
    requires WellFormedPacket(p) && p.command == ACK
    ensures var f := Feed(Download, Idle(offset), k, Encode(p));
      && |f.output| == 1 && SnapshotAt(f.output[0], Download, p, offset)
      && (forall key :: Carries(p.extension, key) ==> f.output[0].key == Some(key))
      && ((forall key :: !Carries(p.extension, key)) ==> f.output[0].key == None)
      && f.output[0].encMethod == k.encryption
      && f.keys.key == f.output[0].key && f.keys.encryption == k.encryption
  {
    FeedPacket(Download, p, offset, k);
    forall key | Carries(p.extension, key) ensures HasFullKey(p.extension) && p.extension[2..18] == key {
      CarriesBytes(p.extension, key);
    }
    if HasFullKey(p.extension) {
      FullCarries(p.extension);
    }
  }

  function SecondByte(extension: seq<Byte>): Option<Byte> {
    if |extension| < 2 then None else Some(extension[1])
  }

  /** A request to synchronise clears the key and sets the encryption to its second extension byte. */
  lemma SynSetsEncryption(p: Packet, offset: nat, k: KeyState)
    requires WellFormedPacket(p) && p.command == SYN
    ensures var f := Feed(Upload, Idle(offset), k, Encode(p));
      && |f.output| == 1 && SnapshotAt(f.output[0], Upload, p, offset)
      && f.output[0].key == f.keys.key == None
      && f.output[0].encMethod == f.keys.encryption == SecondByte(p.extension)
  {
    FeedPacket(Upload, p, offset, k);
  }

  /** Anything else, a handshake in the wrong direction included, is no evidence. */
  lemma OtherPacketsAreSilent(direction: Direction, p: Packet, offset: nat, k: KeyState)
    requires WellFormedPacket(p)
    requires if direction == Upload then p.command != SYN else p.command != ACK
    ensures var f := Feed(direction, Idle(offset), k, Encode(p)); f.output == [] && f.keys == k
  {
    FeedPacket(direction, p, offset, k);
  }

  /** A header that cannot be parsed ends the evidence of its direction, whatever follows. */
  lemma BadHeaderIsFinal(direction: Direction, offset: nat, k: KeyState, bytes: seq<Byte>)
    requires |bytes| >= HEADER_LEN && Parse(bytes).Err?
    ensures var f := Feed(direction, Idle(offset), k, bytes);
      && f.output == [] && f.keys == k && f.parser.stopped
      && forall more: seq<Byte> :: Feed(direction, f.parser, k, more) == Fed(f.parser, k, [])
  {
    var head, rest := bytes[..HEADER_LEN], bytes[HEADER_LEN..];
    ParsePrefix(bytes);
    CompleteHeader(direction, Idle(offset), k, head);
    assert Appended(Idle(offset), head).prefix == head;
    FeedConcat(direction, Idle(offset), k, head, rest);
    assert bytes == head + rest;
    var stopped := Feed(direction, Idle(offset), k, head).parser;
    StoppedIgnores(direction, stopped, k, rest);
    forall more: seq<Byte> ensures Feed(direction, stopped, k, more) == Fed(stopped, k, []) {
      StoppedIgnores(direction, stopped, k, more);
    }
  }

  // Whole connections, packet by packet in either direction

  type Exchange = w: seq<(Direction, Packet)> | forall x :: x in w ==> WellFormedPacket(x.1)

  function Sent(w: Exchange): Trace {
    seq(|w|, i requires 0 <= i < |w| => WellFormedIn(w, i); (w[i].0, Encode(w[i].1)))
  }

  lemma WellFormedIn(w: Exchange, i: nat)
    requires i < |w|
    ensures WellFormedPacket(w[i].1)
  {
    assert w[i] in w;
  }

  /** The encryption last asked for. */
  function LastEncryption(w: Exchange): Option<Byte> {
    if w == [] then None
    else
      var (direction, p) := w[|w| - 1];
      if direction == Upload && p.command == SYN then SecondByte(p.extension)
      else LastEncryption(w[..|w| - 1])
  }

  function LengthIn(w: Exchange, direction: Direction): nat {
    if w == [] then 0
    else LengthIn(w[..|w| - 1], direction) + if w[|w| - 1].0 == direction then w[|w| - 1].1.Length() else 0
  }

  /** After whole packets both directions are at a boundary and the encryption is the one last asked for. */
  ghost predicate Followed(w: Exchange, t: Tracker) {
    && t.upload == Idle(LengthIn(w, Upload)) && t.download == Idle(LengthIn(w, Download))
    && t.keys.encryption == LastEncryption(w)
  }

  lemma OneMore(w: Exchange, direction: Direction, p: Packet)
    requires WellFormedPacket(p)
    ensures forall x :: x in w + [(direction, p)] ==> WellFormedPacket(x.1)
    ensures var more: Exchange := w + [(direction, p)];
      && Sent(more) == Sent(w) + [(direction, Encode(p))]
      && RunTracker(NEW_TRACKER, Sent(more))
         == (TrackerFeed(RunTracker(NEW_TRACKER, Sent(w)).0, direction, Encode(p)).0,
             RunTracker(NEW_TRACKER, Sent(w)).1
             + TrackerFeed(RunTracker(NEW_TRACKER, Sent(w)).0, direction, Encode(p)).1)
  {
    var more: Exchange := w + [(direction, p)];
    assert Sent(more) == Sent(w) + [(direction, Encode(p))];
    RunConcat(NEW_TRACKER, Sent(w), [(direction, Encode(p))]);
    RunOne(RunTracker(NEW_TRACKER, Sent(w)).0, direction, Encode(p));
  }

  lemma {:induction false} ExchangeFollowed(w: Exchange)
    ensures Followed(w, RunTracker(NEW_TRACKER, Sent(w)).0)
  {
    if w != [] {
      var before: Exchange := w[..|w| - 1];
      var (direction, p) := w[|w| - 1];
      WellFormedIn(w, |w| - 1);
      assert w == before + [(direction, p)];
      ExchangeFollowed(before);
      OneMore(before, direction, p);
      var t := RunTracker(NEW_TRACKER, Sent(before)).0;
      FeedPacket(direction, p, LengthIn(before, direction), t.keys);
    }
  }

  /** What one more packet adds to the evidence, whatever was exchanged before. */
  lemma EvidenceOfNext(w: Exchange, direction: Direction, p: Packet)
    requires WellFormedPacket(p)
    ensures forall x :: x in w + [(direction, p)] ==> WellFormedPacket(x.1)
    ensures var more: Exchange := w + [(direction, p)];
      var before, after := RunTracker(NEW_TRACKER, Sent(w)).1, RunTracker(NEW_TRACKER, Sent(more)).1;
      if (if direction == Upload then p.command != SYN else p.command != ACK) then after == before
      else
        && |after| == |before| + 1 && after[..|before|] == before
        && var s := after[|before|];
           && SnapshotAt(s, direction, p, LengthIn(w, direction))
           && s.encMethod == (if direction == Upload then SecondByte(p.extension) else LastEncryption(w))
           && (direction == Upload ==> s.key == None)
           && (direction == Download ==>
                 && (forall key :: Carries(p.extension, key) ==> s.key == Some(key))
                 && ((forall key :: !Carries(p.extension, key)) ==> s.key == None))
  {
    ExchangeFollowed(w);
    OneMore(w, direction, p);
    var t := RunTracker(NEW_TRACKER, Sent(w)).0;
    var offset := LengthIn(w, direction);
    if direction == Upload && p.command == SYN {
      SynSetsEncryption(p, offset, t.keys);
    } else if direction == Download && p.command == ACK {
      AckReportsKey(p, offset, t.keys);
    } else {
      OtherPacketsAreSilent(direction, p, offset, t.keys);
    }
  }
}

/**
 Cutting one direction of a connection into packets (crates/ferrum2-rocom/src/decode/stream.rs),
 as far as the buffer and its capacity are concerned. What is decoded from a packet is not part
 of this model.
 */
module Framing {
  import opened Prelude
  import opened Wire
  import opened Keys

  function Min(a: nat, b: nat): nat { if a <= b then a else b }

  function Max(a: nat, b: nat): nat { if a <= b then b else a }

  /** The part of a packet that is looked at before all of it is there. */
  function Observable(header: Header): nat { Min(header.headLen, HEADER_LEN + OBSERVED_EXTENSION) }

  /** Buffered bytes of the packet under way, and the capacity held for them. */
  datatype Framer = Framer(buffer: seq<Byte>, capacity: nat, header: Option<Header>, observed: bool, stopped: bool)
  {
    function Target(): nat {
      if header.None? then HEADER_LEN
      else if observed then header.value.Total()
      else Observable(header.value)
    }

    /** The buffer is shorter than what it waits for, and holds no more than twice the capacity it needs. */
    predicate Valid() {
      && |buffer| <= capacity <= 2 * |buffer|
      && (stopped ==> buffer == [])
      && (!stopped ==>
            && |buffer| < Target()
            && (header.Some? ==> |buffer| >= HEADER_LEN && Parse(buffer) == Ok(header.value))
            && (observed ==> header.Some? && |buffer| >= Observable(header.value)))
    }
  }

  const NEW_FRAMER: Framer := Framer([], 0, None, false, false)

  // What a direction's bytes say

  /** The bytes of the packet that is not complete yet; none once a header could not be parsed. */
  function Unfinished(bytes: seq<Byte>): Option<seq<Byte>>
    decreases |bytes|
  {
    if |bytes| < HEADER_LEN then Some(bytes)
    else
      match Parse(bytes)
      case Err(_) => None
      case Ok(header) => if |bytes| < header.Total() then Some(bytes) else Unfinished(bytes[header.Total()..])
  }

  /** Some byte of the chunk arrives when the packet it belongs to already fills the limit. */
  predicate Overruns(bytes: seq<Byte>, chunk: seq<Byte>, limit: nat) {
    exists j :: 0 <= j < |chunk| && Fills(bytes + chunk[..j], limit)
  }

  predicate Fills(bytes: seq<Byte>, limit: nat) {
    Unfinished(bytes).Some? && |Unfinished(bytes).value| >= limit
  }

  predicate Frames(f: Framer, bytes: seq<Byte>) {
    Unfinished(bytes) == if f.stopped then None else Some(f.buffer)
  }

  lemma ParseMore(bytes: seq<Byte>, more: seq<Byte>)
    requires |bytes| >= HEADER_LEN
    ensures Parse(bytes + more) == Parse(bytes)
  {
    ParsePrefix(bytes);
    ParsePrefix(bytes + more);
    assert (bytes + more)[..HEADER_LEN] == bytes[..HEADER_LEN];
  }

  /** Complete packets do not matter to what comes after them. */
  lemma {:induction false} UnfinishedMore(bytes: seq<Byte>, more: seq<Byte>)
    ensures Unfinished(bytes + more)
      == if Unfinished(bytes).None? then None else Unfinished(Unfinished(bytes).value + more)
    decreases |bytes|
  {
    if |bytes| >= HEADER_LEN {
      ParseMore(bytes, more);
      if Parse(bytes).Ok? && |bytes| >= Parse(bytes).header.Total() {
        var total := Parse(bytes).header.Total();
        assert (bytes + more)[total..] == bytes[total..] + more;
        UnfinishedMore(bytes[total..], more);
      }
    }
  }

  /** An unfinished packet is its own unfinished packet, and shorter than the packet limit. */
  lemma {:induction false} UnfinishedIsShort(bytes: seq<Byte>)
    requires Unfinished(bytes).Some?
    ensures |Unfinished(bytes).value| < MAX_PACKET
    ensures Unfinished(Unfinished(bytes).value) == Unfinished(bytes)
    decreases |bytes|
  {
    if |bytes| >= HEADER_LEN && |bytes| >= Parse(bytes).header.Total() {
      UnfinishedIsShort(bytes[Parse(bytes).header.Total()..]);
    }
  }

  lemma UnfinishedAfterPacket(p: Packet, more: seq<Byte>)
    requires WellFormedPacket(p)
    ensures Unfinished(Encode(p) + more) == Unfinished(more)
  {
    ParseEncoded(p);
    assert Encode(p) + more == EncodeHeader(p) + (p.extension + p.body + more);
    ParseMore(EncodeHeader(p), p.extension + p.body + more);
    assert (Encode(p) + more)[p.Length()..] == more;
  }

  /** The first packet of some bytes, if it is complete. */
  lemma FirstPacket(bytes: seq<Byte>) returns (p: Packet)
    requires Parse(bytes).Ok? && |bytes| >= Parse(bytes).header.Total()
    ensures WellFormedPacket(p) && bytes == Encode(p) + bytes[Parse(bytes).header.Total()..]
  {
    ParsePrefix(bytes);
    var head := bytes[..HEADER_LEN];
    var h := Parse(bytes).header;
    var announced := AcceptedIsEncoded(head);
    ParseEncoded(announced);
    p := announced.(extension := bytes[HEADER_LEN..h.headLen], body := bytes[h.headLen..h.Total()]);
    SameHeader(announced, p);
    assert bytes == head + p.extension + p.body + bytes[h.Total()..];
  }

  lemma SameHeader(a: Packet, b: Packet)
    requires WellFormedPacket(a) && b == a.(extension := b.extension, body := b.body)
    requires |a.extension| == |b.extension| && |a.body| == |b.body|
    ensures WellFormedPacket(b) && EncodeHeader(a) == EncodeHeader(b)
  {
  }

  /** What is unfinished is what complete packets leave over. */
  lemma {:induction false} UnfinishedMeaning(bytes: seq<Byte>, rest: seq<Byte>)
    ensures Unfinished(bytes) == Some(rest) <==>
      exists packets: seq<Packet> :: (forall p :: p in packets ==> WellFormedPacket(p))
        && bytes == EncodeAll(packets) + rest && Unfinished(rest) == Some(rest)
    decreases |bytes|
  {
    if Unfinished(bytes) == Some(rest) {
      UnfinishedIsShort(bytes);
      var packets := PacketsBefore(bytes);
    }
    forall packets: seq<Packet> | (forall p :: p in packets ==> WellFormedPacket(p))
        && bytes == EncodeAll(packets) + rest && Unfinished(rest) == Some(rest)
      ensures Unfinished(bytes) == Some(rest)
    {
      UnfinishedAfterPackets(packets, rest);
    }
  }

  lemma {:induction false} UnfinishedAfterPackets(packets: seq<Packet>, more: seq<Byte>)
    requires forall p :: p in packets ==> WellFormedPacket(p)
    ensures Unfinished(EncodeAll(packets) + more) == Unfinished(more)
  {
    if packets == [] {
      assert EncodeAll(packets) + more == more;
    } else {
      UnfinishedAfterPacket(packets[0], EncodeAll(packets[1..]) + more);
      assert EncodeAll(packets) + more == Encode(packets[0]) + (EncodeAll(packets[1..]) + more);
      UnfinishedAfterPackets(packets[1..], more);
    }
  }

  lemma {:induction false} PacketsBefore(bytes: seq<Byte>) returns (packets: seq<Packet>)
    requires Unfinished(bytes).Some?
    ensures forall p :: p in packets ==> WellFormedPacket(p)
    ensures bytes == EncodeAll(packets) + Unfinished(bytes).value
    decreases |bytes|
  {
    if |bytes| < HEADER_LEN || |bytes| < Parse(bytes).header.Total() {
      packets := [];
    } else {
      var after := bytes[Parse(bytes).header.Total()..];
      var first := FirstPacket(bytes);
      var later := PacketsBefore(after);
      packets := Joined(bytes, first, after, later, Unfinished(bytes).value);
    }
  }

  lemma Joined(bytes: seq<Byte>, first: Packet, after: seq<Byte>, later: seq<Packet>, rest: seq<Byte>)
      returns (packets: seq<Packet>)
    requires WellFormedPacket(first) && forall p :: p in later ==> WellFormedPacket(p)
    requires bytes == Encode(first) + after && after == EncodeAll(later) + rest
    ensures forall p :: p in packets ==> WellFormedPacket(p)
    ensures bytes == EncodeAll(packets) + rest
  {
    packets := [first] + later;
    EncodeOneMore(first, later);
    assert Encode(first) + (EncodeAll(later) + rest) == Encode(first) + EncodeAll(later) + rest;
  }

  lemma EncodeOneMore(first: Packet, later: seq<Packet>)
    requires WellFormedPacket(first) && forall p :: p in later ==> WellFormedPacket(p)
    ensures forall p :: p in [first] + later ==> WellFormedPacket(p)
    ensures EncodeAll([first] + later) == Encode(first) + EncodeAll(later)
  {
    assert ([first] + later)[1..] == later;
  }

  // The reference: slice by slice, as the capacity depends on how bytes arrive

  function Grown(f: Framer, needed: nat, limit: nat): nat {
    if needed <= f.capacity then f.capacity else Min(Max(needed, 2 * f.capacity), limit)
  }

  function Finished(f: Framer): Framer {
    if f.buffer == [] then f else f.(buffer := [], capacity := 0)
  }

  /** Gives up on the direction for good. */
  function Rejected(f: Framer): Framer {
    Finished(f).(header := None, stopped := true)
  }

  /** Interprets as much of a packet as the target was set for. */
  function Reached(f: Framer): Framer {
    if f.header.None? then
      match Parse(f.buffer)
      case Err(_) => f.(buffer := [], capacity := 0, stopped := true)
      case Ok(header) => Complete(f.(header := Some(header), observed := |f.buffer| >= Observable(header)))
    else Complete(f.(observed := true))
  }

  function Complete(f: Framer): Framer {
    if f.header.Some? && |f.buffer| == f.header.value.Total() then NEW_FRAMER else f
  }

  /** How much of the input the next slice takes. */
  function Take(f: Framer, bytes: seq<Byte>): (r: nat)
    requires f.Valid() && !f.stopped
    ensures r <= |bytes| && |f.buffer| + r <= f.Target() && (bytes != [] ==> r > 0)
  {
    Min(f.Target() - |f.buffer|, |bytes|)
  }

  function Sliced(f: Framer, slice: seq<Byte>, limit: nat): Framer {
    f.(buffer := f.buffer + slice, capacity := Grown(f, |f.buffer| + |slice|, limit))
  }

  /** Capacity grows only when it has to, and then at least twofold as far as the limit allows. */
  lemma GrowsTwofold(f: Framer, slice: seq<Byte>, limit: nat)
    requires f.capacity <= limit && |f.buffer| + |slice| <= limit
    ensures var g := Sliced(f, slice, limit);
      && g.buffer == f.buffer + slice && |g.buffer| <= g.capacity <= limit
      && (|g.buffer| <= f.capacity ==> g.capacity == f.capacity)
      && (|g.buffer| > f.capacity ==> g.capacity == limit || g.capacity >= 2 * f.capacity)
      && (g.capacity > |g.buffer| ==> g.capacity <= 2 * f.capacity || g.capacity == f.capacity)
  {
  }

  /** The framer after a chunk, and whether it ran out of capacity on the way. */
  function FeedFramer(f: Framer, bytes: seq<Byte>, limit: nat): (Framer, bool)
    requires f.Valid() && f.capacity <= limit
    decreases |bytes|
  {
    if bytes == [] || f.stopped then (f, false)
    else
      var take := Take(f, bytes);
      if |f.buffer| + take > limit then (Rejected(f), true)
      else
        SliceKeeps(f, bytes[..take], limit);
        var g := Sliced(f, bytes[..take], limit);
        if |g.buffer| < f.Target() then (g, false) else FeedFramer(Reached(g), bytes[take..], limit)
  }

  /** Filling up to the target leaves the framer valid and holding what is unfinished. */
  lemma SliceKeeps(f: Framer, slice: seq<Byte>, limit: nat)
    requires f.Valid() && !f.stopped && slice != []
    requires |f.buffer| + |slice| <= f.Target() && f.capacity <= limit && |f.buffer| + |slice| <= limit
    ensures var g := Sliced(f, slice, limit);
      if |g.buffer| < f.Target() then g.Valid() && Frames(g, g.buffer) && g.capacity <= limit
      else Reached(g).Valid() && Frames(Reached(g), g.buffer) && Reached(g).capacity <= limit
  {
    if |f.buffer| >= HEADER_LEN {
      ParseMore(f.buffer, slice);
    }
  }

  /** Before the target is reached, all that is buffered is unfinished. */
  lemma SliceFills(f: Framer, bytes: seq<Byte>, j: nat, limit: nat)
    requires f.Valid() && !f.stopped && j <= |bytes| && |f.buffer| + j < f.Target()
    ensures Fills(f.buffer + bytes[..j], limit) <==> |f.buffer| + j >= limit
  {
    if |f.buffer| >= HEADER_LEN {
      ParseMore(f.buffer, bytes[..j]);
    }
  }

  /** The part of a chunk after a slice sees what the slice left unfinished. */
  lemma AfterSlice(buffer: seq<Byte>, bytes: seq<Byte>, take: nat, g: Framer, j: nat)
    requires take <= j <= |bytes| && Frames(g, buffer + bytes[..take])
    ensures Unfinished(buffer + bytes[..j])
      == if g.stopped then None else Unfinished(g.buffer + bytes[take..][..j - take])
  {
    var first, more := buffer + bytes[..take], bytes[take..][..j - take];
    assert first + more == buffer + bytes[..j];
    UnfinishedMore(first, more);
  }

  lemma FillsLater(buffer: seq<Byte>, bytes: seq<Byte>, take: nat, g: Framer, limit: nat)
    requires take <= |bytes| && Frames(g, buffer + bytes[..take])
    ensures forall j :: take <= j <= |bytes| ==>
      (Fills(buffer + bytes[..j], limit) <==> !g.stopped && Fills(g.buffer + bytes[take..][..j - take], limit))
  {
    forall j | take <= j <= |bytes|
      ensures Fills(buffer + bytes[..j], limit) <==> !g.stopped && Fills(g.buffer + bytes[take..][..j - take], limit)
    {
      AfterSlice(buffer, bytes, take, g, j);
    }
  }

  /** The bytes of a chunk after its first slice overrun exactly if they do after that slice. */
  lemma OverrunsLater(buffer: seq<Byte>, bytes: seq<Byte>, take: nat, g: Framer, limit: nat)
    requires take <= |bytes|
    requires forall j :: 0 <= j < take ==> !Fills(buffer + bytes[..j], limit)
    requires forall j :: take <= j <= |bytes| ==>
      (Fills(buffer + bytes[..j], limit) <==> !g.stopped && Fills(g.buffer + bytes[take..][..j - take], limit))
    ensures Overruns(buffer, bytes, limit) <==> !g.stopped && Overruns(g.buffer, bytes[take..], limit)
  {
    if k :| !g.stopped && 0 <= k < |bytes[take..]| && Fills(g.buffer + bytes[take..][..k], limit) {
      assert take <= take + k < |bytes| && take + k - take == k;
      assert Fills(buffer + bytes[..take + k], limit);
    }
  }

  ghost predicate ComesTo(f: Framer, bytes: seq<Byte>, limit: nat, result: (Framer, bool)) {
    f.Valid() && f.capacity <= limit && FeedFramer(f, bytes, limit) == result
  }

  lemma TakesSlice(f: Framer, bytes: seq<Byte>, limit: nat, result: (Framer, bool))
    requires ComesTo(f, bytes, limit, result) && bytes != [] && !f.stopped
    ensures var take := Take(f, bytes);
      if |f.buffer| + take > limit then result == (Rejected(f), true)
      else
        var g := Sliced(f, bytes[..take], limit);
        if |g.buffer| < f.Target() then result == (g, false)
        else ComesTo(Reached(g), bytes[take..], limit, result)
  {
    if |f.buffer| + Take(f, bytes) <= limit {
      SliceKeeps(f, bytes[..Take(f, bytes)], limit);
    }
  }

  /** What a chunk fed to a framer gives: it runs out of capacity exactly if it overruns, else it holds the rest. */
  ghost predicate FedExactly(f: Framer, bytes: seq<Byte>, limit: nat, g: Framer, over: bool) {
    && g.Valid() && g.capacity <= limit
    && (over <==> !f.stopped && Overruns(f.buffer, bytes, limit))
    && (!over && !f.stopped ==> Frames(g, f.buffer + bytes))
  }

  lemma FedTooMuch(f: Framer, bytes: seq<Byte>, limit: nat)
    requires f.Valid() && f.capacity <= limit && !f.stopped && bytes != [] && |f.buffer| + Take(f, bytes) > limit
    ensures FedExactly(f, bytes, limit, Rejected(f), true)
  {
    SliceFills(f, bytes, Take(f, bytes) - 1, limit);
  }

  lemma NoneFills(f: Framer, bytes: seq<Byte>, limit: nat)
    requires f.Valid() && !f.stopped && bytes != [] && |f.buffer| + Take(f, bytes) <= limit
    ensures forall j :: 0 <= j < Take(f, bytes) ==> !Fills(f.buffer + bytes[..j], limit)
  {
    forall j | 0 <= j < Take(f, bytes) ensures !Fills(f.buffer + bytes[..j], limit) { SliceFills(f, bytes, j, limit); }
  }

  lemma FedLater(f: Framer, bytes: seq<Byte>, take: nat, limit: nat, next: Framer, g: Framer, over: bool)
    requires !f.stopped && take <= |bytes| && Frames(next, f.buffer + bytes[..take])
    requires forall j :: 0 <= j < take ==> !Fills(f.buffer + bytes[..j], limit)
    requires FedExactly(next, bytes[take..], limit, g, over)
    requires next.stopped ==> g == next
    ensures FedExactly(f, bytes, limit, g, over)
  {
    AfterSlice(f.buffer, bytes, take, next, |bytes|);
    assert bytes[..|bytes|] == bytes && bytes[take..][..|bytes| - take] == bytes[take..];
    FillsLater(f.buffer, bytes, take, next, limit);
    OverrunsLater(f.buffer, bytes, take, next, limit);
  }

  lemma {:induction false} FeedMeaning(f: Framer, bytes: seq<Byte>, limit: nat)
    requires f.Valid() && f.capacity <= limit
    ensures var (g, over) := FeedFramer(f, bytes, limit); FedExactly(f, bytes, limit, g, over)
    decreases |bytes|
  {
    if bytes == [] {
      assert f.buffer + bytes == f.buffer;
    } else if !f.stopped {
      var take := Take(f, bytes);
      if |f.buffer| + take > limit {
        FedTooMuch(f, bytes, limit);
      } else {
        NoneFills(f, bytes, limit);
        SliceKeeps(f, bytes[..take], limit);
        var g := Sliced(f, bytes[..take], limit);
        if |g.buffer| < f.Target() {
          assert bytes[..take] == bytes;
        } else {
          FeedMeaning(Reached(g), bytes[take..], limit);
          var (last, over) := FeedFramer(Reached(g), bytes[take..], limit);
          FedLater(f, bytes, take, limit, Reached(g), last, over);
        }
      }
    }
  }

  /** The same against all the bytes of the direction so far, however they were cut into chunks. */
  lemma FeedFrames(f: Framer, bytes: seq<Byte>, chunk: seq<Byte>, limit: nat)
    requires f.Valid() && f.capacity <= limit && Frames(f, bytes)
    ensures var (g, over) := FeedFramer(f, chunk, limit);
      && g.Valid() && g.capacity <= limit
      && (over <==> Overruns(bytes, chunk, limit))
      && (!over ==> Frames(g, bytes + chunk))
  {
    FeedMeaning(f, chunk, limit);
    UnfinishedMore(bytes, chunk);
    forall j | 0 <= j < |chunk|
      ensures Fills(bytes + chunk[..j], limit) <==> !f.stopped && Fills(f.buffer + chunk[..j], limit)
    {
      UnfinishedMore(bytes, chunk[..j]);
    }
  }

  /** With room for a whole packet nothing ever overruns. */
  lemma RoomForAPacketIsEnough(bytes: seq<Byte>, chunk: seq<Byte>, limit: nat)
    requires limit >= MAX_PACKET
    ensures !Overruns(bytes, chunk, limit)
  {
    forall j | 0 <= j < |chunk| ensures !Fills(bytes + chunk[..j], limit) {
      if Unfinished(bytes + chunk[..j]).Some? {
        UnfinishedIsShort(bytes + chunk[..j]);
      }
    }
  }

  /** The packet decoder of one direction. */
  class PacketStream {
    var buffer: seq<Byte>
    var capacity: nat
    var header: Option<Header>
    var observed: bool
    var stopped: bool

    ghost function Now(): Framer
      reads this
    {
      Framer(buffer, capacity, header, observed, stopped)
    }

    constructor ()
      ensures Now() == NEW_FRAMER
    {
      buffer, capacity, header, observed, stopped := [], 0, None, false, false;
    }

    method Clear()
      modifies this`buffer, this`capacity
      ensures buffer == [] && capacity == 0
    {
      buffer, capacity := [], 0;
    }

    /** Gives up on the direction after clearing what it has not completed. */
    method Reject()
      modifies this
      ensures Now() == Rejected(old(Now()))
    {
      if buffer != [] {
        Clear();
      }
      stopped, header := true, None;
    }

    /** Buffers a slice, growing the capacity if it has to, at least twofold where the limit allows. */
    method Extend(slice: seq<Byte>, limit: nat)
      modifies this`buffer, this`capacity
      ensures Now() == Sliced(old(Now()), slice, limit)
    {
      var needed := |buffer| + |slice|;
      if needed > capacity {
        capacity := Min(Max(needed, 2 * capacity), limit);
      }
      buffer := buffer + slice;
    }

    /** Interprets as much of a packet as was waited for. */
    method Interpret()
      requires !stopped && |buffer| == Now().Target() && (observed ==> header.Some?)
      modifies this
      ensures Now() == Reached(old(Now()))
    {
      if header.None? {
        match Parse(buffer) {
          case Ok(parsed) => header := Some(parsed);
          case Err(_) =>
            Clear();
            stopped := true;
            return;
        }
      }
      if !observed && |buffer| >= Observable(header.value) {
        observed := true;
      }
      if |buffer| == header.value.Total() {
        Clear();
        header, observed := None, false;
      }
    }

    /** Feeds a chunk slice by slice; `over` if the capacity limit was met. */
    method Feed(bytes: seq<Byte>, limit: nat) returns (over: bool)
      requires Now().Valid() && capacity <= limit
      modifies this
      ensures Now().Valid() && capacity <= limit
      ensures (Now(), over) == FeedFramer(old(Now()), bytes, limit)
    {
      FeedMeaning(Now(), bytes, limit);
      ghost var result := FeedFramer(Now(), bytes, limit);
      var input := bytes;
      while input != []
        invariant ComesTo(Now(), input, limit, result)
        decreases |input|
      {
        if stopped {
          break;
        }
        ghost var f := Now();
        TakesSlice(f, input, limit, result);
        var target :=
          if header.None? then HEADER_LEN
          else if observed then header.value.Total()
          else Min(header.value.headLen, HEADER_LEN + OBSERVED_EXTENSION);
        var take := Min(target - |buffer|, |input|);
        var needed := |buffer| + take;
        assert take == Take(f, input);
        if needed > capacity && needed > limit {
          Reject();
          return true;
        }
        Extend(input[..take], limit);
        input := input[take..];
        if |buffer| < target {
          break;
        }
        Interpret();
      }
      over := false;
    }
  }
}

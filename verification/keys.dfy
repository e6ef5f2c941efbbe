/** The incremental handshake parser (crates/ferrum2-rocom/src/keys.rs). */
module Keys {
  import opened Prelude
  import opened Wire

  const KEY_LEN: nat := 16
  /** Extension bytes a handshake can need: method, length, key. */
  const OBSERVED_EXTENSION: nat := 18

  datatype KeySnapshot = KeySnapshot(
    direction: Direction, offset: nat, keyMethod: nat, encMethod: Option<Byte>,
    sourceSequence: nat, key: Option<seq<Byte>>)

  datatype KeyState = KeyState(
    keyMethod: nat, encryption: Option<Byte>, key: Option<seq<Byte>>, reference: Option<(Direction, nat, nat)>)

  const NO_KEYS: KeyState := KeyState(0, None, None, None)

  predicate IsHandshake(direction: Direction, command: nat) {
    (direction == Upload && command == SYN) || (direction == Download && command == ACK)
  }

  function FirstOf(extension: seq<Byte>): nat {
    if extension == [] then 0 else extension[0]
  }

  /** A full method-2 key: the method, the length 16, and sixteen bytes. */
  predicate HasFullKey(extension: seq<Byte>) {
    |extension| >= 18 && extension[0] == 2 && extension[1] == 16
  }

  function ObserveHandshake(
      k: KeyState, direction: Direction, offset: nat, header: Header, extension: seq<Byte>): KeyState {
    KeyState(
      FirstOf(extension),
      if header.command == SYN then (if |extension| > 1 then Some(extension[1]) else None) else k.encryption,
      if header.command != SYN && HasFullKey(extension) then Some(extension[2..18]) else None,
      Some((direction, offset, header.sequence)))
  }

  function SnapshotOf(k: KeyState, direction: Direction, offset: nat, header: Header): KeySnapshot {
    KeySnapshot(direction, offset, k.keyMethod, k.encryption, header.sequence, k.key)
  }

  /** The parser of one direction. */
  datatype Parser = Parser(
    prefix: seq<Byte>, header: Option<Header>, position: nat, offset: nat, stopped: bool, observed: bool)

  function Idle(offset: nat): Parser {
    Parser([], None, 0, offset, false, false)
  }

  /** How much of a packet is buffered before it is interpreted. */
  function Wanted(header: Header): nat {
    if header.command == SYN || header.command == ACK then
      if header.headLen < HEADER_LEN + OBSERVED_EXTENSION then header.headLen else HEADER_LEN + OBSERVED_EXTENSION
    else HEADER_LEN
  }

  datatype Fed = Fed(parser: Parser, keys: KeyState, output: seq<KeySnapshot>)

  // The reference: one byte at a time

  /** Interprets the packet once enough of it is there, and closes it at its end. */
  function Settle(direction: Direction, p: Parser, k: KeyState): Fed {
    if p.header.None? then Fed(p, k, [])
    else if p.observed then Close(p, k, [])
    else if p.position < Wanted(p.header.value) || p.position < HEADER_LEN || p.position != |p.prefix| then
      Fed(p, k, [])
    else
      var header := p.header.value;
      var seen := p.(observed := true, prefix := []);
      if IsHandshake(direction, header.command) then
        var k' := ObserveHandshake(k, direction, p.offset, header, p.prefix[HEADER_LEN..]);
        Close(seen, k', [SnapshotOf(k', direction, p.offset, header)])
      else Close(seen, k, [])
  }

  function Close(p: Parser, k: KeyState, output: seq<KeySnapshot>): Fed {
    if p.header.Some? && p.position == p.header.value.Total()
    then Fed(Idle(p.offset + p.header.value.Total()), k, output)
    else Fed(p, k, output)
  }

  function Push(p: Parser, b: Byte): Parser {
    if p.observed then p.(position := p.position + 1)
    else p.(prefix := p.prefix + [b], position := p.position + 1)
  }

  /** A complete header either opens its packet or stops the direction for good. */
  function Interpret(direction: Direction, q: Parser, k: KeyState): Fed {
    match Parse(q.prefix)
    case Ok(header) => Settle(direction, q.(header := Some(header)), k)
    case Err(_) => Fed(q.(stopped := true), k, [])
  }

  function FeedByte(direction: Direction, p: Parser, k: KeyState, b: Byte): Fed {
    if p.stopped then Fed(p, k, [])
    else
      var q := Push(p, b);
      if q.header.None? && |q.prefix| >= HEADER_LEN then Interpret(direction, q, k)
      else Settle(direction, q, k)
  }

  function Feed(direction: Direction, p: Parser, k: KeyState, bytes: seq<Byte>): Fed
    decreases |bytes|
  {
    if bytes == [] then Fed(p, k, [])
    else
      var first := FeedByte(direction, p, k, bytes[0]);
      var rest := Feed(direction, first.parser, first.keys, bytes[1..]);
      Fed(rest.parser, rest.keys, first.output + rest.output)
  }

  /** Feeding more bytes after something has been fed. */
  function Then(direction: Direction, f: Fed, bytes: seq<Byte>): Fed {
    var g := Feed(direction, f.parser, f.keys, bytes);
    Fed(g.parser, g.keys, f.output + g.output)
  }

  function Prepend(first: seq<KeySnapshot>, f: Fed): Fed {
    Fed(f.parser, f.keys, first + f.output)
  }

  lemma PrependThen(direction: Direction, first: seq<KeySnapshot>, f: Fed, bytes: seq<Byte>)
    ensures Prepend(first, Then(direction, f, bytes)) == Then(direction, Prepend(first, f), bytes)
  {
    var g := Feed(direction, f.parser, f.keys, bytes);
    assert first + (f.output + g.output) == (first + f.output) + g.output;
  }

  lemma FeedFront(direction: Direction, p: Parser, k: KeyState, bytes: seq<Byte>)
    requires bytes != []
    ensures var first := FeedByte(direction, p, k, bytes[0]);
      Feed(direction, p, k, bytes) == Prepend(first.output, Feed(direction, first.parser, first.keys, bytes[1..]))
  {
  }

  lemma {:induction false} FeedConcat(direction: Direction, p: Parser, k: KeyState, a: seq<Byte>, b: seq<Byte>)
    ensures Feed(direction, p, k, a + b) == Then(direction, Feed(direction, p, k, a), b)
    decreases |a|
  {
    if a == [] {
      assert a + b == b;
    } else {
      var first := FeedByte(direction, p, k, a[0]);
      assert (a + b)[0] == a[0] && (a + b)[1..] == a[1..] + b;
      FeedFront(direction, p, k, a + b);
      FeedFront(direction, p, k, a);
      FeedConcat(direction, first.parser, first.keys, a[1..], b);
      PrependThen(direction, first.output, Feed(direction, first.parser, first.keys, a[1..]), b);
    }
  }

  lemma ThenConcat(direction: Direction, f: Fed, a: seq<Byte>, b: seq<Byte>)
    ensures Then(direction, f, a + b) == Then(direction, Then(direction, f, a), b)
  {
    FeedConcat(direction, f.parser, f.keys, a, b);
  }

  function Flatten(chunks: seq<seq<Byte>>): seq<Byte> {
    if chunks == [] then [] else chunks[0] + Flatten(chunks[1..])
  }

  function FeedChunks(direction: Direction, f: Fed, chunks: seq<seq<Byte>>): Fed
    decreases |chunks|
  {
    if chunks == [] then f else FeedChunks(direction, Then(direction, f, chunks[0]), chunks[1..])
  }

  /** However a stream is cut into chunks, the snapshots and the final state are those of the whole. */
  lemma {:induction false} FragmentationInsensitive(direction: Direction, f: Fed, chunks: seq<seq<Byte>>)
    ensures FeedChunks(direction, f, chunks) == Then(direction, f, Flatten(chunks))
    decreases |chunks|
  {
    if chunks == [] {
      assert Then(direction, f, []) == f;
    } else {
      FragmentationInsensitive(direction, Then(direction, f, chunks[0]), chunks[1..]);
      ThenConcat(direction, f, chunks[0], Flatten(chunks[1..]));
    }
  }

  // What the parser can look like between bytes

  predicate IsHeader(h: Header) {
    HEADER_LEN <= h.headLen && h.Total() <= MAX_PACKET
  }

  predicate Settled(p: Parser) {
    if p.stopped then p.header.None? && !p.observed && |p.prefix| == HEADER_LEN
    else if p.header.None? then !p.observed && p.position == |p.prefix| < HEADER_LEN
    else
      && IsHeader(p.header.value)
      && if p.observed then p.prefix == [] && Wanted(p.header.value) <= p.position < p.header.value.Total()
         else HEADER_LEN <= p.position == |p.prefix| < Wanted(p.header.value)
  }

  /** A packet with its header known, possibly complete enough to settle. */
  predicate Unsettled(p: Parser) {
    && !p.stopped && p.header.Some? && IsHeader(p.header.value)
    && if p.observed then p.prefix == [] && Wanted(p.header.value) <= p.position <= p.header.value.Total()
       else HEADER_LEN <= p.position == |p.prefix| <= Wanted(p.header.value)
  }

  lemma WantedBounds(h: Header)
    requires IsHeader(h)
    ensures HEADER_LEN <= Wanted(h) <= h.headLen <= h.Total() && Wanted(h) <= 39
  {
  }

  lemma SettleSettles(direction: Direction, p: Parser, k: KeyState)
    requires Unsettled(p)
    ensures Settled(Settle(direction, p, k).parser)
  {
    WantedBounds(p.header.value);
  }

  lemma FeedByteSettles(direction: Direction, p: Parser, k: KeyState, b: Byte)
    requires Settled(p)
    ensures Settled(FeedByte(direction, p, k, b).parser)
  {
    if !p.stopped {
      var q := Push(p, b);
      if q.header.None? {
        if |q.prefix| >= HEADER_LEN && Parse(q.prefix).Ok? {
          WantedBounds(Parse(q.prefix).header);
          SettleSettles(direction, q.(header := Some(Parse(q.prefix).header)), k);
        }
      } else {
        SettleSettles(direction, q, k);
      }
    }
  }

  /** Between chunks a direction buffers 38 bytes at most; interpretation needs at most 39. */
  lemma {:induction false} FeedSettles(direction: Direction, p: Parser, k: KeyState, bytes: seq<Byte>)
    requires Settled(p)
    ensures Settled(Feed(direction, p, k, bytes).parser)
    ensures |Feed(direction, p, k, bytes).parser.prefix| <= 38
    decreases |bytes|
  {
    if bytes == [] {
      if p.header.Some? { WantedBounds(p.header.value); }
    } else {
      FeedByteSettles(direction, p, k, bytes[0]);
      var first := FeedByte(direction, p, k, bytes[0]);
      FeedSettles(direction, first.parser, first.keys, bytes[1..]);
    }
  }

  // Several bytes in one step

  function Appended(p: Parser, bytes: seq<Byte>): Parser {
    p.(prefix := p.prefix + bytes, position := p.position + |bytes|)
  }

  lemma {:induction false} FillHeader(direction: Direction, p: Parser, k: KeyState, bytes: seq<Byte>)
    requires Settled(p) && !p.stopped && p.header.None? && |p.prefix| + |bytes| < HEADER_LEN
    ensures Feed(direction, p, k, bytes) == Fed(Appended(p, bytes), k, [])
    decreases |bytes|
  {
    if bytes == [] {
      assert p.prefix + bytes == p.prefix;
    } else {
      var q := Push(p, bytes[0]);
      assert FeedByte(direction, p, k, bytes[0]) == Fed(q, k, []);
      FeedFront(direction, p, k, bytes);
      FillHeader(direction, q, k, bytes[1..]);
      assert Appended(q, bytes[1..]) == Appended(p, bytes) by {
        assert bytes == [bytes[0]] + bytes[1..];
        assert q.prefix + bytes[1..] == p.prefix + bytes;
      }
    }
  }

  /** The byte that completes a header either settles the packet or stops the direction for good. */
  lemma CompleteHeader(direction: Direction, p: Parser, k: KeyState, bytes: seq<Byte>)
    requires Settled(p) && !p.stopped && p.header.None? && |p.prefix| + |bytes| == HEADER_LEN
    ensures Feed(direction, p, k, bytes) == Interpret(direction, Appended(p, bytes), k)
  {
    var n := |bytes| - 1;
    var front, last := bytes[..n], bytes[n];
    assert bytes == front + [last];
    FillHeader(direction, p, k, front);
    FeedConcat(direction, p, k, front, [last]);
    var before := Appended(p, front);
    assert Push(before, last).prefix == p.prefix + bytes;
    FeedOne(direction, before, k, last);
  }

  lemma FeedOne(direction: Direction, p: Parser, k: KeyState, b: Byte)
    ensures Feed(direction, p, k, [b]) == FeedByte(direction, p, k, b)
  {
    var first := FeedByte(direction, p, k, b);
    FeedFront(direction, p, k, [b]);
    assert [b][1..] == [];
    assert first.output + [] == first.output;
  }

  lemma {:induction false} FillExtension(direction: Direction, p: Parser, k: KeyState, bytes: seq<Byte>)
    requires Unsettled(p) && !p.observed && p.position + |bytes| <= Wanted(p.header.value)
    ensures Then(direction, Settle(direction, p, k), bytes) == Settle(direction, Appended(p, bytes), k)
    decreases |bytes|
  {
    if bytes == [] {
      assert Appended(p, bytes) == p;
    } else {
      var q := Push(p, bytes[0]);
      assert Settle(direction, p, k) == Fed(p, k, []);
      assert FeedByte(direction, p, k, bytes[0]) == Settle(direction, q, k);
      FeedFront(direction, p, k, bytes);
      FillExtension(direction, q, k, bytes[1..]);
      assert Appended(q, bytes[1..]) == Appended(p, bytes) by {
        assert bytes == [bytes[0]] + bytes[1..];
        assert q.prefix + bytes[1..] == p.prefix + bytes;
      }
    }
  }

  lemma {:induction false} SkipBody(direction: Direction, p: Parser, k: KeyState, bytes: seq<Byte>)
    requires Unsettled(p) && p.observed && p.position + |bytes| <= p.header.value.Total()
    ensures Then(direction, Settle(direction, p, k), bytes)
         == Settle(direction, p.(position := p.position + |bytes|), k)
    decreases |bytes|
  {
    if bytes != [] {
      var q := Push(p, bytes[0]);
      assert Settle(direction, p, k) == Fed(p, k, []);
      assert FeedByte(direction, p, k, bytes[0]) == Settle(direction, q, k);
      FeedFront(direction, p, k, bytes);
      SkipBody(direction, q, k, bytes[1..]);
    }
  }

  /** Interpreting a packet that is complete enough. */
  function Seen(p: Parser): Parser {
    p.(observed := true, prefix := [])
  }

  lemma SettleObserves(direction: Direction, p: Parser, k: KeyState)
    requires Unsettled(p) && !p.observed && p.position == Wanted(p.header.value)
    ensures Unsettled(Seen(p))
    ensures var header := p.header.value;
      var k' := ObserveHandshake(k, direction, p.offset, header, p.prefix[HEADER_LEN..]);
      Settle(direction, p, k) ==
        if IsHandshake(direction, header.command)
        then Prepend([SnapshotOf(k', direction, p.offset, header)], Settle(direction, Seen(p), k'))
        else Settle(direction, Seen(p), k)
  {
    WantedBounds(p.header.value);
  }

  lemma {:induction false} StoppedIgnores(direction: Direction, p: Parser, k: KeyState, bytes: seq<Byte>)
    requires p.stopped
    ensures Feed(direction, p, k, bytes) == Fed(p, k, [])
    decreases |bytes|
  {
    if bytes != [] {
      StoppedIgnores(direction, p, k, bytes[1..]);
    }
  }

  // The imperative parser

  class KeyStateCell {
    var keyMethod: nat
    var encryption: Option<Byte>
    var key: Option<seq<Byte>>
    var reference: Option<(Direction, nat, nat)>

    ghost function Value(): KeyState
      reads this
    {
      KeyState(keyMethod, encryption, key, reference)
    }

    constructor ()
      ensures Value() == NO_KEYS
    {
      keyMethod, encryption, key, reference := 0, None, None, None;
    }

    method Observe(direction: Direction, offset: nat, header: Header, extension: seq<Byte>)
        returns (r: Option<KeySnapshot>)
      modifies this
      ensures IsHandshake(direction, header.command) ==>
        && Value() == ObserveHandshake(old(Value()), direction, offset, header, extension)
        && r == Some(SnapshotOf(Value(), direction, offset, header))
      ensures !IsHandshake(direction, header.command) ==> Value() == old(Value()) && r == None
    {
      if !IsHandshake(direction, header.command) {
        return None;
      }
      keyMethod := FirstOf(extension);
      key := None;
      if header.command == SYN {
        encryption := if |extension| > 1 then Some(extension[1]) else None;
      } else if keyMethod == 2 && |extension| > 1 && extension[1] == 16 && |extension| >= 18 {
        key := Some(extension[2..18]);
      }
      reference := Some((direction, offset, header.sequence));
      r := Some(KeySnapshot(direction, offset, keyMethod, encryption, header.sequence, key));
    }
  }

  class Stream {
    var prefix: seq<Byte>
    var header: Option<Header>
    var position: nat
    var offset: nat
    var stopped: bool
    var observed: bool

    ghost function State(): Parser
      reads this
    {
      Parser(prefix, header, position, offset, stopped, observed)
    }

    constructor ()
      ensures State() == Idle(0)
    {
      prefix, header, position, offset, stopped, observed := [], None, 0, 0, false, false;
    }

    /** Consumes a chunk in slices; the outcome is that of feeding its bytes one by one. */
    method Observe(direction: Direction, chunk: seq<Byte>, keys: KeyStateCell) returns (output: seq<KeySnapshot>)
      requires Settled(State())
      modifies this, keys
      ensures Settled(State())
      ensures Fed(State(), keys.Value(), output) == Feed(direction, old(State()), old(keys.Value()), chunk)
    {
      var bytes := chunk;
      output := [];
      ghost var whole := Feed(direction, State(), keys.Value(), chunk);
      while bytes != [] && !stopped
        invariant Settled(State())
        invariant whole == Then(direction, Fed(State(), keys.Value(), output), bytes)
        decreases |bytes|
      {
        if header.None? {
          bytes := TakeHeader(direction, bytes, keys.Value(), output);
          if header.None? {
            break;
          }
        }
        var more;
        bytes, more := TakePacket(direction, bytes, keys, output);
        output := output + more;
      }
      if stopped {
        StoppedIgnores(direction, State(), keys.Value(), bytes);
      }
      assert output + [] == output;
    }

    /** Collects the header; without one afterwards the chunk is used up or the direction has stopped. */
    method TakeHeader(direction: Direction, bytes: seq<Byte>, ghost k: KeyState, ghost output: seq<KeySnapshot>)
        returns (rest: seq<Byte>)
      requires Settled(State()) && !stopped && header.None? && bytes != []
      modifies this
      ensures |rest| < |bytes|
      ensures header.None? ==> Settled(State()) && (stopped || rest == [])
      ensures header.None? ==>
        Then(direction, Fed(old(State()), k, output), bytes) == Then(direction, Fed(State(), k, output), rest)
      ensures header.Some? ==> Unsettled(State()) && !observed
      ensures header.Some? ==>
        Then(direction, Fed(old(State()), k, output), bytes)
          == Then(direction, Prepend(output, Settle(direction, State(), k)), rest)
    {
      ghost var start := State();
      var take := if HEADER_LEN - |prefix| < |bytes| then HEADER_LEN - |prefix| else |bytes|;
      rest := bytes[take..];
      HeaderSlice(direction, start, k, output, bytes, take);
      prefix := prefix + bytes[..take];
      position := position + take;
      if |prefix| < HEADER_LEN {
        return;
      }
      match Parse(prefix) {
        case Ok(parsed) =>
          header := Some(parsed);
          WantedBounds(parsed);
        case Err(_) =>
          stopped := true;
      }
    }

    lemma HeaderSlice(
        direction: Direction, start: Parser, k: KeyState, output: seq<KeySnapshot>, bytes: seq<Byte>, take: nat)
      requires Settled(start) && !start.stopped && start.header.None?
      requires take <= |bytes| && |start.prefix| + take <= HEADER_LEN
      ensures var q := Appended(start, bytes[..take]);
        Then(direction, Fed(start, k, output), bytes)
        == Then(direction,
                Prepend(output, if |q.prefix| < HEADER_LEN then Fed(q, k, []) else Interpret(direction, q, k)),
                bytes[take..])
      ensures output + [] == output
    {
      assert bytes == bytes[..take] + bytes[take..];
      ThenConcat(direction, Fed(start, k, output), bytes[..take], bytes[take..]);
      if |start.prefix| + take < HEADER_LEN {
        FillHeader(direction, start, k, bytes[..take]);
      } else {
        CompleteHeader(direction, start, k, bytes[..take]);
      }
    }

    /** The packet after its header: the part to interpret, then the rest of it. */
    method TakePacket(direction: Direction, bytes: seq<Byte>, keys: KeyStateCell, ghost output: seq<KeySnapshot>)
        returns (rest: seq<Byte>, more: seq<KeySnapshot>)
      requires Unsettled(State())
      modifies this, keys
      ensures Settled(State())
      ensures |rest| <= |bytes|
      ensures old(Settled(State())) && bytes != [] ==> |rest| < |bytes|
      ensures Then(direction, Prepend(output, Settle(direction, old(State()), old(keys.Value()))), bytes)
           == Then(direction, Fed(State(), keys.Value(), output + more), rest)
    {
      rest, more := bytes, [];
      assert output + [] == output;
      var wanted := Wanted(header.value);
      WantedBounds(header.value);
      if position < wanted {
        rest := TakeExtension(direction, bytes, keys.Value(), output);
        if position < wanted {
          return;
        }
      }
      if !observed {
        more := ObservePacket(direction, keys, output);
      }
      rest := TakeBody(direction, rest, keys.Value(), output + more);
    }

    /** Hands the buffered extension to the key state, once a packet. */
    method ObservePacket(direction: Direction, keys: KeyStateCell, ghost output: seq<KeySnapshot>)
        returns (more: seq<KeySnapshot>)
      requires Unsettled(State()) && !observed && position == Wanted(header.value)
      modifies this`observed, this`prefix, keys
      ensures Unsettled(State()) && observed
      ensures Prepend(output, Settle(direction, old(State()), old(keys.Value())))
           == Prepend(output + more, Settle(direction, State(), keys.Value()))
    {
      SettleObserves(direction, State(), keys.Value());
      more := [];
      var snapshot := keys.Observe(direction, offset, header.value, prefix[HEADER_LEN..]);
      if snapshot.Some? {
        more := [snapshot.value];
      }
      observed := true;
      prefix := [];
    }

    method TakeExtension(direction: Direction, bytes: seq<Byte>, ghost k: KeyState, ghost output: seq<KeySnapshot>)
        returns (rest: seq<Byte>)
      requires Unsettled(State()) && !observed && position < Wanted(header.value)
      modifies this`prefix, this`position
      ensures Unsettled(State())
      ensures |rest| <= |bytes| && (bytes != [] ==> |rest| < |bytes|)
      ensures position < Wanted(header.value) ==> rest == []
      ensures Then(direction, Prepend(output, Settle(direction, old(State()), k)), bytes)
           == Then(direction, Prepend(output, Settle(direction, State(), k)), rest)
    {
      ghost var start := State();
      var wanted := Wanted(header.value);
      var take := if wanted - position < |bytes| then wanted - position else |bytes|;
      rest := bytes[take..];
      ghost var taken := bytes[..take];
      assert bytes == taken + rest;
      ThenConcat(direction, Prepend(output, Settle(direction, start, k)), taken, rest);
      FillExtension(direction, start, k, taken);
      PrependThen(direction, output, Settle(direction, start, k), taken);
      prefix := prefix + bytes[..take];
      position := position + take;
    }

    method TakeBody(direction: Direction, bytes: seq<Byte>, ghost k: KeyState, ghost output: seq<KeySnapshot>)
        returns (rest: seq<Byte>)
      requires Unsettled(State()) && observed
      modifies this
      ensures Settled(State()) && !stopped
      ensures |rest| <= |bytes|
      ensures old(position) < old(header).value.Total() && bytes != [] ==> |rest| < |bytes|
      ensures Then(direction, Prepend(output, Settle(direction, old(State()), k)), bytes)
           == Then(direction, Fed(State(), k, output), rest)
    {
      ghost var start := State();
      var total := header.value.Total();
      var take := if total - position < |bytes| then total - position else |bytes|;
      rest := bytes[take..];
      ghost var taken := bytes[..take];
      assert bytes == taken + rest;
      ThenConcat(direction, Prepend(output, Settle(direction, start, k)), taken, rest);
      SkipBody(direction, start, k, taken);
      PrependThen(direction, output, Settle(direction, start, k), taken);
      position := position + take;
      assert output + [] == output;
      if position == total {
        offset := offset + total;
        position := 0;
        header := None;
        observed := false;
      }
    }
  }
}

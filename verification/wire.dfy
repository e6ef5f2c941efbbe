/** Packet headers of the observed wire format (crates/ferrum2-rocom/src/wire.rs). */
module Wire {
  type Byte = b: nat | b < 256

  type U16 = x: nat | x < 0x1_0000

  type U32 = x: nat | x < 0x1_0000_0000

  const HEADER_LEN: nat := 21
  const MAX_PACKET: nat := 16 * 1024 * 1024
  const SYN: nat := 0x1001
  const ACK: nat := 0x1002

  datatype Direction = Upload | Download

  datatype Header = Header(
    headVersion: nat, bodyVersion: nat, command: nat, encrypted: nat, sequence: nat, headLen: nat, bodyLen: nat)
  {
    function Total(): nat { headLen + bodyLen }
  }

  datatype ParseError = ShortHeader | InvalidMagic | InvalidEncryptedFlag | InvalidHeadLength | PacketLimit

  datatype ParseResult = Ok(header: Header) | Err(error: ParseError)

  function Be16(bytes: seq<Byte>, offset: nat): nat
    requires offset + 2 <= |bytes|
  {
    var high: nat, low: nat := bytes[offset], bytes[offset + 1];
    high * 256 + low
  }

  function Be32(bytes: seq<Byte>, offset: nat): nat
    requires offset + 4 <= |bytes|
  {
    Be16(bytes, offset) * 0x1_0000 + Be16(bytes, offset + 2)
  }

  function Parse(bytes: seq<Byte>): (r: ParseResult)
    ensures r.Ok? ==> HEADER_LEN <= r.header.headLen && r.header.Total() <= MAX_PACKET
  {
    if |bytes| < HEADER_LEN then Err(ShortHeader)
    else if bytes[0] != 0x33 || bytes[1] != 0x66 then Err(InvalidMagic)
    else
      var header := Header(Be16(bytes, 2), Be16(bytes, 4), Be16(bytes, 6), bytes[8], Be32(bytes, 9), Be32(bytes, 13),
                           Be32(bytes, 17));
      if header.encrypted > 1 then Err(InvalidEncryptedFlag)
      else if header.headLen < HEADER_LEN then Err(InvalidHeadLength)
      else if header.Total() > MAX_PACKET then Err(PacketLimit)
      else Ok(header)
  }

  // Encoding, the other direction

  function Put16(x: U16): (r: seq<Byte>)
    ensures |r| == 2 && Be16(r, 0) == x
  {
    [x / 256, x % 256]
  }

  function Put32(x: U32): (r: seq<Byte>)
    ensures |r| == 4 && Be32(r, 0) == x
  {
    Put16(x / 0x1_0000) + Put16(x % 0x1_0000)
  }

  datatype Packet = Packet(
    headVersion: U16, bodyVersion: U16, command: U16, encrypted: Byte, sequence: U32,
    extension: seq<Byte>, body: seq<Byte>)
  {
    function Length(): nat { HEADER_LEN + |extension| + |body| }

    function HeaderOf(): Header {
      Header(headVersion, bodyVersion, command, encrypted, sequence, HEADER_LEN + |extension|, |body|)
    }
  }

  predicate WellFormedPacket(p: Packet) {
    p.encrypted <= 1 && p.Length() <= MAX_PACKET
  }

  function EncodeHeader(p: Packet): (r: seq<Byte>)
    requires WellFormedPacket(p)
    ensures |r| == HEADER_LEN
  {
    [0x33, 0x66] + Put16(p.headVersion) + Put16(p.bodyVersion) + Put16(p.command) + [p.encrypted] + Put32(p.sequence)
    + Put32(HEADER_LEN + |p.extension|) + Put32(|p.body|)
  }

  function Encode(p: Packet): (r: seq<Byte>)
    requires WellFormedPacket(p)
    ensures |r| == p.Length()
  {
    EncodeHeader(p) + p.extension + p.body
  }

  function EncodeAll(packets: seq<Packet>): seq<Byte>
    requires forall p :: p in packets ==> WellFormedPacket(p)
  {
    if packets == [] then [] else Encode(packets[0]) + EncodeAll(packets[1..])
  }

  lemma Be16Of(bytes: seq<Byte>, offset: nat, part: seq<Byte>)
    requires |part| == 2 && offset + 2 <= |bytes| && bytes[offset..offset + 2] == part
    ensures Be16(bytes, offset) == Be16(part, 0)
  {
    assert bytes[offset] == part[0] && bytes[offset + 1] == part[1];
  }

  lemma Be32Of(bytes: seq<Byte>, offset: nat, part: seq<Byte>)
    requires |part| == 4 && offset + 4 <= |bytes| && bytes[offset..offset + 4] == part
    ensures Be32(bytes, offset) == Be32(part, 0)
  {
    assert bytes[offset] == part[0] && bytes[offset + 1] == part[1];
    assert bytes[offset + 2] == part[2] && bytes[offset + 3] == part[3];
  }

  lemma Slice(before: seq<Byte>, part: seq<Byte>, after: seq<Byte>)
    ensures (before + part + after)[|before|..|before| + |part|] == part
  {
  }

  /** Parsing an encoded header gives the packet's own fields back. */
  lemma ParseEncoded(p: Packet)
    requires WellFormedPacket(p)
    ensures Parse(EncodeHeader(p)) == Ok(p.HeaderOf())
  {
    var bytes := EncodeHeader(p);
    var h := p.HeaderOf();
    var versions := [0x33, 0x66] + Put16(p.headVersion) + Put16(p.bodyVersion);
    var numbers := versions + Put16(p.command) + [p.encrypted] + Put32(p.sequence);
    assert bytes == numbers + Put32(h.headLen) + Put32(h.bodyLen);
    Slice(numbers, Put32(h.headLen), Put32(h.bodyLen));
    Slice(numbers + Put32(h.headLen), Put32(h.bodyLen), []);
    assert bytes == numbers + Put32(h.headLen) + Put32(h.bodyLen) + [];
    Be32Of(bytes, 13, Put32(h.headLen));
    Be32Of(bytes, 17, Put32(h.bodyLen));
    assert bytes[..13] == numbers;
    assert numbers[9..13] == Put32(p.sequence);
    assert bytes[9..13] == numbers[9..13];
    Be32Of(bytes, 9, Put32(p.sequence));
    assert versions[2..4] == Put16(p.headVersion) && versions[4..6] == Put16(p.bodyVersion);
    assert bytes[2..4] == versions[2..4] && bytes[4..6] == versions[4..6];
    assert bytes[6..8] == Put16(p.command);
    Be16Of(bytes, 2, Put16(p.headVersion));
    Be16Of(bytes, 4, Put16(p.bodyVersion));
    Be16Of(bytes, 6, Put16(p.command));
  }

  lemma PutBe16(bytes: seq<Byte>, offset: nat)
    requires offset + 2 <= |bytes|
    ensures Be16(bytes, offset) < 0x1_0000 && Put16(Be16(bytes, offset)) == bytes[offset..offset + 2]
  {
  }

  lemma PutBe32(bytes: seq<Byte>, offset: nat)
    requires offset + 4 <= |bytes|
    ensures Be32(bytes, offset) < 0x1_0000_0000 && Put32(Be32(bytes, offset)) == bytes[offset..offset + 4]
  {
    var high, low := Be16(bytes, offset), Be16(bytes, offset + 2);
    PutBe16(bytes, offset);
    PutBe16(bytes, offset + 2);
    assert (high * 0x1_0000 + low) / 0x1_0000 == high && (high * 0x1_0000 + low) % 0x1_0000 == low;
    assert bytes[offset..offset + 4] == bytes[offset..offset + 2] + bytes[offset + 2..offset + 4];
  }

  /** Only the fixed part is looked at. */
  lemma ParsePrefix(bytes: seq<Byte>)
    requires |bytes| >= HEADER_LEN
    ensures Parse(bytes) == Parse(bytes[..HEADER_LEN])
  {
    var head := bytes[..HEADER_LEN];
    assert forall i :: 0 <= i < HEADER_LEN ==> head[i] == bytes[i];
  }

  lemma Pieces(bytes: seq<Byte>)
    requires |bytes| == HEADER_LEN
    ensures bytes == bytes[0..2] + bytes[2..4] + bytes[4..6] + bytes[6..8] + [bytes[8]] + bytes[9..13]
                     + bytes[13..17] + bytes[17..21]
  {
    var a := bytes[0..2] + bytes[2..4] + bytes[4..6] + bytes[6..8];
    assert a == bytes[..8];
    assert a + [bytes[8]] == bytes[..9];
    assert a + [bytes[8]] + bytes[9..13] == bytes[..13];
    assert bytes[..13] + bytes[13..17] == bytes[..17];
    assert bytes[..17] + bytes[17..21] == bytes;
  }

  /** The packet an accepted header announces, with empty bytes for its contents. */
  function Announced(h: Header): Packet
    requires h.headVersion < 0x1_0000 && h.bodyVersion < 0x1_0000 && h.command < 0x1_0000
    requires h.encrypted < 256 && h.sequence < 0x1_0000_0000 && h.headLen >= HEADER_LEN
  {
    Packet(h.headVersion, h.bodyVersion, h.command, h.encrypted, h.sequence,
           seq(h.headLen - HEADER_LEN, _ => 0), seq(h.bodyLen, _ => 0))
  }

  lemma AcceptedIsEncoded(bytes: seq<Byte>) returns (p: Packet)
    requires |bytes| == HEADER_LEN && Parse(bytes).Ok?
    ensures WellFormedPacket(p) && EncodeHeader(p) == bytes
  {
    PutBe16(bytes, 2);
    PutBe16(bytes, 4);
    PutBe16(bytes, 6);
    PutBe32(bytes, 9);
    PutBe32(bytes, 13);
    PutBe32(bytes, 17);
    p := Announced(Parse(bytes).header);
    Pieces(bytes);
    assert bytes[0..2] == [0x33, 0x66];
  }

  /** Exactly the headers of well-formed packets are accepted. */
  lemma ParseAcceptsExactly(bytes: seq<Byte>)
    ensures Parse(bytes).Ok? <==>
      |bytes| >= HEADER_LEN && exists p :: WellFormedPacket(p) && EncodeHeader(p) == bytes[..HEADER_LEN]
  {
    if |bytes| >= HEADER_LEN {
      ParsePrefix(bytes);
      if p :| WellFormedPacket(p) && EncodeHeader(p) == bytes[..HEADER_LEN] {
        ParseEncoded(p);
      }
      if Parse(bytes).Ok? {
        var p := AcceptedIsEncoded(bytes[..HEADER_LEN]);
      }
    }
  }

  function Value(bytes: seq<Byte>, i: nat): nat
    requires i < |bytes|
  {
    bytes[i]
  }

  /** Four bytes as a big-endian number. */
  function Quad(bytes: seq<Byte>, i: nat): nat
    requires i + 4 <= |bytes|
  {
    Value(bytes, i) * 0x100_0000 + Value(bytes, i + 1) * 0x1_0000 + Value(bytes, i + 2) * 0x100 + Value(bytes, i + 3)
  }

  /** Where each field stands: numbers are big-endian, after the two marker bytes. */
  lemma FieldPlaces(bytes: seq<Byte>)
    requires Parse(bytes).Ok?
    ensures |bytes| >= 21 && bytes[0] == 0x33 && bytes[1] == 0x66
    ensures var h := Parse(bytes).header;
      && h.headVersion == Value(bytes, 2) * 0x100 + Value(bytes, 3)
      && h.bodyVersion == Value(bytes, 4) * 0x100 + Value(bytes, 5)
      && h.command == Value(bytes, 6) * 0x100 + Value(bytes, 7)
      && h.encrypted == Value(bytes, 8) <= 1
      && h.sequence == Quad(bytes, 9)
      && h.headLen == Quad(bytes, 13) >= 21
      && h.bodyLen == Quad(bytes, 17)
      && h.headLen + h.bodyLen <= 16 * 1024 * 1024
  {
  }

  /** Why a header is not accepted. */
  lemma RejectedFor(bytes: seq<Byte>)
    requires Parse(bytes).Err?
    ensures Parse(bytes).error ==
      if |bytes| < 21 then ShortHeader
      else if bytes[0] != 0x33 || bytes[1] != 0x66 then InvalidMagic
      else if bytes[8] > 1 then InvalidEncryptedFlag
      else if Quad(bytes, 13) < 21 then InvalidHeadLength
      else PacketLimit
    ensures Parse(bytes).error == PacketLimit ==> Quad(bytes, 13) + Quad(bytes, 17) > 16 * 1024 * 1024
  {
  }
}

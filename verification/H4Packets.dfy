/**
 The H4 transport of the Bluetooth adapter: a type byte, a header that holds the length of the body,
 and the body (Bluetooth Core, Vol 4 Part A section 2).
 */
module H4Packets {
  import opened Wrappers
  import opened Bytes
  import opened Streams
  import opened Pipes

  const MAX_H4_PACKET_BYTES := 65_535

  datatype Packet = Packet(kind: u8, payload: seq<u8>)

  /** Commands and synchronous data have a three-byte header, asynchronous and isochronous data a four-byte one. */
  function HeaderLength(kind: u8): Option<nat> {
    if kind == 1 || kind == 3 then Some(3) else if kind == 2 || kind == 5 then Some(4) else None
  }

  function BodyLength(kind: u8, header: seq<u8>): nat
    requires HeaderLength(kind).Some? && |header| >= HeaderLength(kind).value
  {
    if kind == 1 || kind == 3 then header[2]
    else if kind == 2 then U16At(header, 2)
    else U16At(header, 2) % 0x4000
  }

  /**
   A packet whose header tells the length of its body, within 65535 bytes: commands and synchronous data in the
   third byte, asynchronous data in the third and fourth, low byte first, and isochronous data there in 14 bits.
   */
  predicate WellFormed(p: Packet) {
    var b := p.payload;
    var n: int := |b|;
    || (p.kind in {1, 3} && n >= 3 && n - 3 == b[2])
    || (p.kind == 2 && n >= 4 && n - 4 == b[2] as int + 256 * b[3] as int && n <= 65535)
    || (p.kind == 5 && n >= 4 && n - 4 == (b[2] as int + 256 * b[3] as int) % 16384)
  }

  lemma WellFormedByLength(p: Packet)
    ensures WellFormed(p) <==>
            && HeaderLength(p.kind).Some? && |p.payload| >= HeaderLength(p.kind).value
            && |p.payload| == HeaderLength(p.kind).value + BodyLength(p.kind, p.payload) <= MAX_H4_PACKET_BYTES
  {
  }

  function ReadPacket(bytes: seq<u8>): (n: Next<Packet>)
    ensures n.Got? ==> |n.rest| < |bytes|
  {
    if |bytes| < 1 then Wait
    else
      match HeaderLength(bytes[0])
      case None => Bad
      case Some(header) =>
        if |bytes| < 1 + header then Wait
        else
          var length := header + BodyLength(bytes[0], bytes[1..]);
          if length > MAX_H4_PACKET_BYTES then Bad
          else if |bytes| < 1 + length then Wait
          else Got(Packet(bytes[0], bytes[1..1 + length]), bytes[1 + length..])
  }

  function WritePacket(p: Packet): seq<u8> {
    [p.kind] + p.payload
  }

  lemma BodyLengthInPrefix(kind: u8, a: seq<u8>, b: seq<u8>)
    requires HeaderLength(kind).Some? && |a| >= HeaderLength(kind).value
    ensures BodyLength(kind, a + b) == BodyLength(kind, a)
  {
  }

  /** A well-formed packet is read back whatever follows it. */
  lemma PacketRoundTrip(p: Packet, rest: seq<u8>)
    requires WellFormed(p)
    ensures ReadPacket(WritePacket(p) + rest) == Got(p, rest)
  {
    var bytes := WritePacket(p) + rest;
    WellFormedByLength(p);
    assert bytes[1..] == p.payload + rest;
    BodyLengthInPrefix(p.kind, p.payload, rest);
    assert bytes[1..1 + |p.payload|] == p.payload && bytes[1 + |p.payload|..] == rest;
  }

  lemma PacketsAreWellFormed(bytes: seq<u8>)
    requires ReadPacket(bytes).Got?
    ensures WellFormed(ReadPacket(bytes).item)
  {
    var kind, header := bytes[0], HeaderLength(bytes[0]).value;
    var length := header + BodyLength(kind, bytes[1..]);
    assert bytes[1..] == bytes[1..1 + length] + bytes[1 + length..];
    BodyLengthInPrefix(kind, bytes[1..1 + length], bytes[1 + length..]);
    WellFormedByLength(ReadPacket(bytes).item);
  }

  /** Commands and synchronous data, whatever follows them. */
  lemma ShortPacketsAreRead(kind: u8, a: u8, b: u8, body: seq<u8>, rest: seq<u8>)
    requires (kind == 1 || kind == 3) && |body| < 0x100
    ensures ReadPacket([kind, a, b, |body|] + body + rest) == Got(Packet(kind, [a, b, |body|] + body), rest)
  {
    var p := Packet(kind, [a, b, |body|] + body);
    assert [kind, a, b, |body|] + body == WritePacket(p);
    PacketRoundTrip(p, rest);
  }

  /** Asynchronous data; what does not fit 65535 bytes is rejected. */
  lemma DataPacketsAreRead(a: u8, b: u8, low: u8, high: u8, body: seq<u8>, rest: seq<u8>)
    ensures low + 256 * high <= 65531 && |body| == low + 256 * high ==>
              ReadPacket([2, a, b, low, high] + body + rest) == Got(Packet(2, [a, b, low, high] + body), rest)
    ensures low + 256 * high > 65531 ==> ReadPacket([2, a, b, low, high] + body) == Bad
  {
    var p := Packet(2, [a, b, low, high] + body);
    assert [2, a, b, low, high] + body == WritePacket(p);
    if low + 256 * high <= 65531 && |body| == low + 256 * high {
      PacketRoundTrip(p, rest);
    }
    assert WritePacket(p)[1..] == p.payload;
  }

  /** Isochronous data; the two highest bits of the length field do not count. */
  lemma IsochronousPacketsAreRead(a: u8, b: u8, low: u8, high: u8, body: seq<u8>, rest: seq<u8>)
    requires |body| == (low + 256 * high) % 16384
    ensures ReadPacket([5, a, b, low, high] + body + rest) == Got(Packet(5, [a, b, low, high] + body), rest)
  {
    var p := Packet(5, [a, b, low, high] + body);
    assert [5, a, b, low, high] + body == WritePacket(p);
    PacketRoundTrip(p, rest);
  }

  /** No other type is read, and no part of a packet is. */
  lemma OtherTypesAreRejected(kind: u8, rest: seq<u8>)
    requires kind !in {1, 2, 3, 5}
    ensures ReadPacket([kind] + rest) == Bad
  {
  }

  lemma PartOfPacketWaits(p: Packet, k: nat)
    requires WellFormed(p) && k < |WritePacket(p)|
    ensures ReadPacket(WritePacket(p)[..k]) == Wait
  {
    var part := WritePacket(p)[..k];
    WellFormedByLength(p);
    if k > 0 && |part| >= 1 + HeaderLength(p.kind).value {
      assert part[1..] == p.payload[..k - 1];
      assert p.payload == p.payload[..k - 1] + p.payload[k - 1..];
      BodyLengthInPrefix(p.kind, p.payload[..k - 1], p.payload[k - 1..]);
    }
  }

  lemma {:induction false} ReadingsAreWellFormed(bytes: seq<u8>)
    ensures forall p <- ReadItems(ReadPacket, bytes).items :: WellFormed(p)
    decreases |bytes|
  {
    var next := ReadPacket(bytes);
    if next.Got? {
      PacketsAreWellFormed(bytes);
      ReadingsAreWellFormed(next.rest);
    }
  }

  /**
   A sequence of packets written one after the other is read back, consuming every byte, exactly when
   all of them are well formed.
   */
  lemma PacketsRoundTripExactly(packets: seq<Packet>)
    ensures ReadItems(ReadPacket, WriteItems(WritePacket, packets)) == Reading(packets, [], false)
            <==> forall p <- packets :: WellFormed(p)
  {
    ReadingsAreWellFormed(WriteItems(WritePacket, packets));
    if forall p <- packets :: WellFormed(p) {
      WellFormedRoundTrip(packets);
    }
  }

  lemma WellFormedRoundTrip(packets: seq<Packet>)
    requires forall p <- packets :: WellFormed(p)
    ensures ReadItems(ReadPacket, WriteItems(WritePacket, packets)) == Reading(packets, [], false)
  {
    forall p <- packets, rest: seq<u8> ensures ReadPacket(WritePacket(p) + rest) == Got(p, rest) {
      PacketRoundTrip(p, rest);
    }
    ItemsRoundTrip(ReadPacket, WritePacket, packets);
  }

  /** Packets arrive whole or not at all, so how the guest's bytes are cut does not matter. */
  lemma PacketsAreExtensible()
    ensures Extensible(ReadPacket)
  {
    forall bytes, more ensures ExtendsAt(ReadPacket, bytes, more) {
      PacketExtends(bytes, more);
    }
  }

  lemma PacketExtends(bytes: seq<u8>, more: seq<u8>)
    ensures ExtendsAt(ReadPacket, bytes, more)
  {
    if |bytes| >= 1 && HeaderLength(bytes[0]).Some? && |bytes| >= 1 + HeaderLength(bytes[0]).value {
      assert (bytes + more)[1..] == bytes[1..] + more;
      BodyLengthInPrefix(bytes[0], bytes[1..], more);
      var length := HeaderLength(bytes[0]).value + BodyLength(bytes[0], bytes[1..]);
      if 1 + length <= |bytes| {
        assert (bytes + more)[1..1 + length] == bytes[1..1 + length];
        assert (bytes + more)[1 + length..] == bytes[1 + length..] + more;
      }
    }
  }

  datatype ReadError = EndOfStream | UnsupportedType | TooLarge

  lemma Pieces(bytes: seq<u8>, header: nat, body: nat)
    requires 1 + header + body <= |bytes|
    ensures bytes[1..][..header] + bytes[1..][header..][..body] == bytes[1..1 + header + body]
    ensures bytes[1..][header..][body..] == bytes[1 + header + body..]
  {
  }

  /** The type byte, the header, the length check and the body, each read exactly. */
  method ReadH4Packet(source: Source) returns (r: Result<Packet, ReadError>)
    modifies source
    ensures match ReadPacket(old(source.bytes))
            case Got(p, rest) => r == Success(p) && source.bytes == rest
            case Wait => r == Failure(EndOfStream)
            case Bad => r == Failure(if old(source.bytes)[0] in {1, 2, 3, 5} then TooLarge else UnsupportedType)
  {
    ghost var bytes := source.bytes;
    var kind := source.ReadExact(1);
    if kind.None? {
      return Failure(EndOfStream);
    }
    var header := HeaderLength(kind.value[0]);
    if header.None? {
      return Failure(UnsupportedType);
    }
    var payload := source.ReadExact(header.value);
    if payload.None? {
      return Failure(EndOfStream);
    }
    assert bytes[1..] == payload.value + source.bytes;
    BodyLengthInPrefix(kind.value[0], payload.value, source.bytes);
    var length := BodyLength(kind.value[0], payload.value);
    if header.value + length > MAX_H4_PACKET_BYTES {
      return Failure(TooLarge);
    }
    var body := source.ReadExact(length);
    if body.None? {
      return Failure(EndOfStream);
    }
    Pieces(bytes, header.value, length);
    r := Success(Packet(kind.value[0], payload.value + body.value));
  }
}

/**
 The messages of the frame pipe as bytes: every field at its offset, numbers with the lowest byte first.
 */
module FrameBytes {
  import opened Wrappers
  import opened Bytes
  import opened Streams
  import opened FrameBrokers
  import opened FrameWire
  import opened FrameSessions

  function Word(b: seq<u8>, at: nat): nat
    requires at + 4 <= |b|
  {
    b[at] as int + 0x100 * b[at + 1] as int + 0x1_0000 * b[at + 2] as int + 0x100_0000 * b[at + 3] as int
  }

  function Long(b: seq<u8>, at: nat): nat
    requires at + 8 <= |b|
  {
    Word(b, at) + 0x1_0000_0000 * Word(b, at + 4)
  }

  lemma Fields(b: seq<u8>, at: nat)
    ensures at + 4 <= |b| ==> U32At(b, at) == Word(b, at)
    ensures at + 8 <= |b| ==> U64At(b, at) == Long(b, at)
  {
  }

  /** A header: "HDF2", version 2, a kind and a size. */
  function Head(kind: u8, size: u8): seq<u8> {
    [0x48, 0x44, 0x46, 0x32, 0x02, 0x00, kind, 0x00, size, 0x00, 0x00, 0x00]
  }

  lemma HeadIsRead(kind: u8, size: u8, more: seq<u8>)
    ensures ReadHeader(Head(kind, size) + more) == Some(Header(kind as u16, size as u32))
  {
    var bytes := Head(kind, size) + more;
    assert bytes[0] == 0x48 && bytes[1] == 0x44 && bytes[2] == 0x46 && bytes[3] == 0x32;
    assert bytes[4] == 2 && bytes[5] == 0 && bytes[6] == kind && bytes[7] == 0;
    assert bytes[8] == size && bytes[9] == bytes[10] == bytes[11] == 0;
  }

  /** Any other magic or version is no header. */
  lemma OtherHeadsAreRejected(bytes: seq<u8>)
    requires |bytes| >= 12 && bytes[..6] != [0x48, 0x44, 0x46, 0x32, 0x02, 0x00]
    ensures ReadHeader(bytes) == None && ReadMessage(bytes) == Bad
  {
    assert bytes[..6] == [bytes[0], bytes[1], bytes[2], bytes[3], bytes[4], bytes[5]];
    Fields(bytes, 0);
  }

  /** A registration has 60 bytes behind its header. */
  lemma RegistrationIsRead(b: seq<u8>, rest: seq<u8>)
    requires |b| == 60
    ensures var format: int := Word(b, 32);
            ReadMessage(Head(1, 72) + b + rest) == Got(Register(72, Registration(
              b[0], b[1] > 0, b[2] > 0, b[3] > 0, Word(b, 4), Word(b, 8), Word(b, 12), Word(b, 16), Word(b, 20),
              Word(b, 24), Word(b, 28), if format < 0x8000_0000 then format else format - 0x1_0000_0000,
              Long(b, 36), Long(b, 44), [b[52], b[53], b[54], b[55], b[56], b[57], b[58], b[59]])), rest)
  {
    BodyIsRead(Head(1, 72), b, rest, 72);
    HeadIsRead(1, 72, b + rest);
    RegistrationFields(b);
  }

  lemma BodyIsRead(head: seq<u8>, b: seq<u8>, rest: seq<u8>, size: nat)
    requires |head| == 12 && |b| == size - 12
    ensures var bytes := head + b + rest;
            bytes == head + (b + rest) && bytes[12..size] == b && bytes[size..] == rest
  {
  }

  lemma RegistrationFields(b: seq<u8>)
    requires |b| == 60
    ensures var format: int := Word(b, 32);
            ReadRegistration(b) == Registration(
              b[0], b[1] > 0, b[2] > 0, b[3] > 0, Word(b, 4), Word(b, 8), Word(b, 12), Word(b, 16), Word(b, 20),
              Word(b, 24), Word(b, 28), if format < 0x8000_0000 then format else format - 0x1_0000_0000,
              Long(b, 36), Long(b, 44), [b[52], b[53], b[54], b[55], b[56], b[57], b[58], b[59]])
  {
    Fields(b, 4);
    Fields(b, 8);
    Fields(b, 12);
    Fields(b, 16);
    Fields(b, 20);
    Fields(b, 24);
    Fields(b, 28);
    Fields(b, 32);
    Fields(b, 36);
    Fields(b, 44);
    assert b[52..60] == [b[52], b[53], b[54], b[55], b[56], b[57], b[58], b[59]];
  }

  /** A publication has 16: the buffer, seven bytes that do not matter, and the value. */
  lemma PublicationIsRead(b: seq<u8>, rest: seq<u8>)
    requires |b| == 16
    ensures ReadMessage(Head(2, 28) + b + rest) == Got(Post(28, Publication(b[0], Long(b, 8))), rest)
  {
    BodyIsRead(Head(2, 28), b, rest, 28);
    HeadIsRead(2, 28, b + rest);
    Fields(b, 8);
  }

  /** Wrong sizes and other kinds are rejected as soon as their header is there. */
  lemma OtherMessagesAreRejected(kind: u8, size: u8, more: seq<u8>)
    requires !(kind == 1 && size == 72) && !(kind == 2 && size == 28)
    ensures ReadMessage(Head(kind, size) + more) == Bad
  {
    HeadIsRead(kind, size, more);
  }

  /** A release: kind 3, 28 bytes, the buffer, the verdict, six zeros and the value. */
  lemma ReleaseIsWritten(id: u8, accepted: bool, value: u64)
    ensures var b := ReleaseBytes(id, accepted, value);
            && |b| == 28
            && b[..20] == Head(3, 28) + [id, if accepted then 1 else 0, 0, 0, 0, 0, 0, 0]
            && Long(b, 20) == value
  {
    var b := ReleaseBytes(id, accepted, value);
    var head := WriteHeader(KIND_RELEASE, RELEASE_SIZE);
    assert head == Head(3, 28) by {
      assert Le32(WIRE_MAGIC) == [0x48, 0x44, 0x46, 0x32] && Le16(2) == [2, 0] && Le16(3) == [3, 0];
      assert Le32(28) == [28, 0, 0, 0];
      assert [0x48, 0x44, 0x46, 0x32] + [2, 0] + [3, 0] + [28, 0, 0, 0] == Head(3, 28);
    }
    var front: seq<u8> := [id, if accepted then 1 else 0, 0, 0, 0, 0, 0, 0];
    assert b == (head + front) + Le64(value);
    assert b[20..28] == Le64(value) && b[..20] == head + front;
    Read64(b, 20, value);
    Fields(b, 20);
  }

  /** How the bytes behind the last message end a session. */
  lemma LeftoverBytes(s: Session, kind: u8, size: u8, more: seq<u8>)
    ensures forall rest: seq<u8> :: |rest| < 12 ==> Leftover(s, rest) == PipeClosed
    ensures var rest := Head(kind, size) + more;
            Leftover(s, rest) ==
            if kind == 1 then
              if size != 72 then Stopped(BadSize) else if s.pool.Some? then Stopped(RegisteredTooLate) else PipeClosed
            else if kind == 2 then if size != 28 then Stopped(BadSize) else PipeClosed
            else Stopped(SessionError.UnsupportedMessage)
    ensures forall rest: seq<u8> :: |rest| >= 12 && rest[..6] != [0x48, 0x44, 0x46, 0x32, 0x02, 0x00] ==>
              Leftover(s, rest) == WrongHeader
  {
    HeadIsRead(kind, size, more);
    forall rest: seq<u8> | |rest| >= 12 && rest[..6] != [0x48, 0x44, 0x46, 0x32, 0x02, 0x00]
      ensures Leftover(s, rest) == WrongHeader
    {
      OtherHeadsAreRejected(rest);
    }
  }
}

/**
 What the UWB adapter answers to each of its commands, byte by byte: the session it leaves, the response and
 the notifications, with nothing but bytes of the request and fields of the session.
 */
module UwbRequests {
  import opened Wrappers
  import opened Bytes
  import opened UwbAdapter

  /** Four bytes, the lowest first. */
  function Word(n: u32): seq<u8> {
    [n % 0x100, n / 0x100 % 0x100, n / 0x1_0000 % 0x100, n / 0x100_0000]
  }

  /** The session status: three header bytes, six bytes of payload. */
  function Status(token: Token, state: u8): seq<u8> {
    [0x61, 0x02, 0x00, 0x06] + token + [state, 0x00]
  }

  /** The range control and the peer with its distance, then angles, slot and signal strength. */
  const CONTROL_AND_PEER: seq<u8> := [
    0x00, 0xE8, 0x03, 0x00, 0x00, 0x01, 0x00, 0x00, 0x00, 0x00, 0x00, 0x00, 0x00, 0x00, 0x00, 0x00,
    0x01, 0x03, 0x04, 0x00, 0x00, 0xFA, 0x00]
  const ANGLES_AND_SIGNAL: seq<u8> := [
    0x00, 0x00, 0x00, 0x00, 0x00, 0x00, 0x00, 0x00, 0x00, 0x00, 0x00, 0x00,
    0x00, 0x64, 0x00, 0x00, 0x00, 0x00, 0x00, 0x00, 0x00, 0x00, 0x00, 0x00, 0x00]

  /** Range data: the number, the token and one measurement of 250 cm to the peer with address 3, 4. */
  function RangeData(number: u32, token: Token): seq<u8> {
    [0x62, 0x00, 0x00, 0x38] + Word(number) + token + (CONTROL_AND_PEER + ANGLES_AND_SIGNAL)
  }

  /** The session, then a response with the group and opcode of the request, then notifications. */
  function Reply(
    s: Session, group: u8, opcode: u8, payload: seq<u8>, notifications: seq<seq<u8>>): Option<Answer>
    requires group < 0x10 && |payload| < 0x100
  {
    Some(Answer(s, [[0x40 + group, opcode, 0x00, |payload|] + payload] + notifications))
  }

  function Next(n: u32): u32 {
    if n == 0xFFFF_FFFF then 0 else n + 1
  }

  lemma WordIsLittleEndian(n: u32)
    ensures Word(n) == Le32(n)
  {
  }

  lemma StatusBytes(s: Session)
    ensures StatusNotification(s) == Status(s.token, s.state)
  {
  }

  lemma VersionBytes()
    ensures [0x00] + Le16(0x0200) + Le16(0x0100) + Le16(0x0100) + Le16(0x0100) + [0x00]
         == [0, 0, 2, 0, 1, 0, 1, 0, 1, 0]
  {
  }

  lemma FieldBytes()
    ensures Le32(1000) == [0xE8, 0x03, 0x00, 0x00] && Le32(0) == [0, 0, 0, 0] && Le16(250) == [0xFA, 0x00]
  {
  }

  lemma MeasurementBytes()
    ensures Measurement() == CONTROL_AND_PEER + ANGLES_AND_SIGNAL
  {
    FieldBytes();
    var zeros: seq<u8> := [0, 0, 0, 0];
    assert [0x00] + [0xE8, 0x03, 0x00, 0x00] + [0x01, 0x00, 0x00] + zeros + zeros + [0x01, 0x03, 0x04, 0x00, 0x00]
         + [0xFA, 0x00] == CONTROL_AND_PEER;
    Halves(CONTROL_AND_PEER);
  }

  lemma Halves(a: seq<u8>)
    ensures a + [0, 0, 0, 0, 0, 0, 0, 0, 0, 0, 0, 0] + [0x00, 100] + [0, 0, 0, 0, 0, 0, 0, 0, 0, 0, 0]
         == a + ANGLES_AND_SIGNAL
  {
    assert [0, 0, 0, 0, 0, 0, 0, 0, 0, 0, 0, 0] + [0x00, 100] + [0, 0, 0, 0, 0, 0, 0, 0, 0, 0, 0] == ANGLES_AND_SIGNAL;
  }

  lemma RangeBytes(s: Session)
    ensures RangeNotification(s) == RangeData(s.sequenceNumber, s.token)
  {
    MeasurementBytes();
    WordIsLittleEndian(s.sequenceNumber);
    var head := [0x62, 0x00, 0x00, 0x38];
    assert head + (Word(s.sequenceNumber) + s.token + Measurement())
        == head + Word(s.sequenceNumber) + s.token + Measurement();
  }

  /** Commands that only read. */
  lemma ReadingCommands(s: Session, r: seq<u8>)
    ensures IsCommand(r, 0, 2) ==> Respond(s, r) == Reply(s, 0, 2, [0, 0, 2, 0, 1, 0, 1, 0, 1, 0], [])
    ensures IsCommand(r, 0, 3) ==> Respond(s, r) == Reply(s, 0, 3, [0, 34] + FIRA_V2_CAPS, [])
    ensures IsCommand(r, 0, 4) ==> Respond(s, r) == Reply(s, 0, 4, [0, 0], [])
    ensures IsCommand(r, 0, 5) ==> Respond(s, r) == Reply(s, 0, 5, [0, 0], [])
    ensures IsCommand(r, 1, 4) ==> Respond(s, r) == Reply(s, 1, 4, [0, 0], [])
    ensures IsCommand(r, 1, 5) ==> Respond(s, r) == Reply(s, 1, 5, [0, if s.state == 1 then 0 else 1], [])
    ensures IsCommand(r, 1, 6) ==> Respond(s, r) == Reply(s, 1, 6, [0, s.state], [])
    ensures IsCommand(r, 2, 3) ==> Respond(s, r) == Reply(s, 2, 3, [0] + Word(s.rangingCount), [])
    ensures IsCommand(r, 12, 0) ==>
              Respond(s, r) == Reply(s, 12, 0, [0, 0, 0, 0, 0, 0, 0, 0, 0, 0, 0, 0, 0, 0, 0, 0, 0], [])
    ensures IsCommand(r, 12, 1) ==> Respond(s, r) == Reply(s, 12, 1, [0], [])
  {
    VersionBytes();
    WordIsLittleEndian(s.rangingCount);
  }

  /** Commands that change the session, and report its new state. */
  lemma SessionCommands(s: Session, r: seq<u8>)
    ensures IsCommand(r, 1, 0) && |r| >= 9 ==>
              var token: Token := r[4..8];
              Respond(s, r) == Reply(Session(token, 0, 0, 0), 1, 0, [0] + token, [Status(token, 0)])
    ensures IsCommand(r, 1, 1) ==>
              Respond(s, r) == Reply(s.(state := 1), 1, 1, [0], [Status(s.token, 1)])
    ensures IsCommand(r, 1, 3) && |r| >= 9 ==>
              Respond(s, r) == Reply(s.(state := 3), 1, 3, [0, 0], [Status(s.token, 3)])
  {
    if Accepted(r).Some? {
      StatusBytes(NextSession(s, Accepted(r).value, r));
    }
  }

  /** Starting to range raises both counters and sends range data. */
  lemma RangeStartCommand(s: Session, r: seq<u8>)
    ensures IsCommand(r, 2, 0) ==>
              var number, count := Next(s.sequenceNumber), Next(s.rangingCount);
              Respond(s, r) == Reply(Session(s.token, 2, number, count), 2, 0, [0],
                                     [Status(s.token, 2), RangeData(number, s.token)])
  {
    if IsCommand(r, 2, 0) {
      var next := NextSession(s, RangeStart, r);
      StatusBytes(next);
      RangeBytes(next);
    }
  }

  /** Stopping only reports. */
  lemma RangeStopCommand(s: Session, r: seq<u8>)
    ensures IsCommand(r, 2, 1) ==>
              Respond(s, r) == Reply(s.(state := 3), 2, 1, [0], [Status(s.token, 3)])
  {
    if IsCommand(r, 2, 1) {
      StatusBytes(NextSession(s, RangeStop, r));
    }
  }
}

/**
 The UWB peripheral adapter: UCI frames are taken off the guest's byte stream, and each command is
 answered by a response and its notifications while a ranging session is kept.
 */
module UwbAdapter {
  import opened Wrappers
  import opened Bytes
  import opened Streams

  const MAX_GUEST_MESSAGE_BYTES := 64 * 1024

  // ---------------------------------------------------------------------------------------------
  // Frames
  // ---------------------------------------------------------------------------------------------

  /** The three type bits of a UCI packet header. */
  function MessageType(first: u8): u8 {
    first / 0x20
  }

  /** Data packets carry a 16-bit length, all others an 8-bit one. */
  function FrameLength(bytes: seq<u8>): nat
    requires |bytes| >= 4
  {
    4 + if MessageType(bytes[0]) == 0 then U16At(bytes, 2) else bytes[3]
  }

  /** A frame is never shorter than its header, so taking one makes progress. */
  function ReadFrame(bytes: seq<u8>): (n: Next<seq<u8>>)
    ensures n.Got? ==> |n.item| >= 4 && n.item + n.rest == bytes
  {
    if |bytes| < 4 then Wait
    else
      var length := FrameLength(bytes);
      if length > MAX_GUEST_MESSAGE_BYTES then Bad
      else if |bytes| < length then Wait
      else Got(bytes[..length], bytes[length..])
  }

  lemma FramesAreExtensible()
    ensures Extensible(ReadFrame)
  {
    forall bytes, more ensures ExtendsAt(ReadFrame, bytes, more) {
      if |bytes| >= 4 {
        var length := FrameLength(bytes);
        assert FrameLength(bytes + more) == length;
        if length <= |bytes| {
          assert (bytes + more)[..length] == bytes[..length] && (bytes + more)[length..] == bytes[length..] + more;
        }
      }
    }
  }

  /** A control packet: type, group and opcode in two bytes, one more byte, and the length of the payload. */
  lemma ControlFramesAreRead(first: u8, second: u8, third: u8, payload: seq<u8>, rest: seq<u8>)
    requires first >= 0x20 && |payload| < 0x100
    ensures var frame := [first, second, third, |payload|] + payload;
            ReadFrame(frame + rest) == Got(frame, rest)
  {
    var frame := [first, second, third, |payload|] + payload;
    assert (frame + rest)[0] == first && (frame + rest)[3] == |payload|;
    assert (frame + rest)[..|frame|] == frame && (frame + rest)[|frame|..] == rest;
  }

  /** A data packet has a 16-bit length, little end first; what is over 64 KiB with its header is rejected. */
  lemma DataFramesAreRead(first: u8, second: u8, low: u8, high: u8, payload: seq<u8>, rest: seq<u8>)
    requires first < 0x20
    ensures low + 0x100 * high > 65532 ==> ReadFrame([first, second, low, high] + payload) == Bad
    ensures var frame := [first, second, low, high] + payload;
            |payload| == low + 0x100 * high <= 65532 ==> ReadFrame(frame + rest) == Got(frame, rest)
  {
    var frame := [first, second, low, high] + payload;
    assert (frame + rest)[0] == first && (frame + rest)[2] == low && (frame + rest)[3] == high;
    assert (frame + rest)[..|frame|] == frame && (frame + rest)[|frame|..] == rest;
  }

  // ---------------------------------------------------------------------------------------------
  // The session
  // ---------------------------------------------------------------------------------------------

  type Token = t: seq<u8> | |t| == 4 witness [0, 0, 0, 0]

  datatype Session = Session(token: Token, state: u8, sequenceNumber: u32, rangingCount: u32)

  const DEINIT: u8 := 0x01
  const INITIAL := Session([0, 0, 0, 0], DEINIT, 0, 0)

  function WrappingInc(n: u32): u32 {
    (n + 1) % 0x1_0000_0000
  }

  /** A control packet; its payload has to fit the length byte. */
  function Packet(messageType: u8, group: u8, opcode: u8, payload: seq<u8>): (p: seq<u8>)
    requires messageType < 8 && group < 16 && |payload| < 0x100
    ensures |p| == 4 + |payload|
  {
    [messageType * 0x20 + group, opcode, 0, |payload|] + payload
  }

  function StatusNotification(s: Session): seq<u8> {
    Packet(3, 1, 2, s.token + [s.state, 0])
  }

  /** The one deterministic measurement of a short-address peer, 250 cm away. */
  function Measurement(): (m: seq<u8>)
    ensures |m| == 48
  {
    [0x00] + Le32(1000) + [0x01, 0x00, 0x00] + Le32(0) + Le32(0)
    + [0x01, 0x03, 0x04, 0x00, 0x00] + Le16(250)
    + [0, 0, 0, 0, 0, 0, 0, 0, 0, 0, 0, 0] + [0x00, 100] + [0, 0, 0, 0, 0, 0, 0, 0, 0, 0, 0]
  }

  function RangePayload(s: Session): (p: seq<u8>)
    ensures |p| == 56
  {
    Le32(s.sequenceNumber) + s.token + Measurement()
  }

  function Ranged(s: Session): Session {
    s.(sequenceNumber := WrappingInc(s.sequenceNumber), rangingCount := WrappingInc(s.rangingCount))
  }

  function RangeNotification(s: Session): seq<u8> {
    Packet(3, 2, 0, RangePayload(s))
  }

  /** The FiRa 2.0 capability TLVs. */
  const FIRA_V2_CAPS: seq<u8> := [
    0xC0, 0x01, 0x01, 0x00, 0x01, 0x20, 0x01, 0x01, 0x10, 0x02, 0x04, 0x01, 0x01, 0x01, 0x02, 0x03, 0x04, 0x01,
    0x05, 0x01, 0x03, 0x04, 0x01, 0x01, 0x05, 0x02, 0x03, 0x01, 0x06, 0x02, 0xFF, 0x00, 0x07, 0x01, 0x03, 0x08,
    0x01, 0x03, 0x09, 0x01, 0x00, 0x0A, 0x01, 0x00, 0x0B, 0x01, 0x00, 0x0C, 0x01, 0x01, 0x0D, 0x01, 0x01, 0x0E,
    0x01, 0x09, 0x0F, 0x01, 0x0B, 0x10, 0x01, 0x03, 0x11, 0x01, 0x01, 0x12, 0x05, 0x03, 0x00, 0x00, 0x00, 0x00,
    0x13, 0x01, 0x0F, 0x14, 0x01, 0x01, 0x15, 0x01, 0x00, 0x16, 0x01, 0x01, 0x18, 0x01, 0x10, 0x19, 0x01, 0x01,
    0x1A, 0x01, 0x00, 0xE3, 0x01, 0x01, 0xE4, 0x04, 0x01, 0x01, 0x01, 0x01, 0xE5, 0x04, 0x03, 0x00, 0x00, 0x00,
    0xE6, 0x01, 0xFF, 0xE7, 0x01, 0x01, 0xE8, 0x04, 0x01, 0x01, 0x01, 0x01, 0xE9, 0x04, 0x01, 0x00, 0x00, 0x00
  ]

  /** What a command asks for; None for anything the adapter does not support. */
  datatype Command =
    | DeviceInfo | Capabilities | ReadConfig | SessionInit | SessionDeinit | SetAppConfig
    | SessionCount | SessionState | RangeStart | RangeStop | RangingCount | CountryCode | PowerStats

  function Decode(group: u8, opcode: u8): Option<Command> {
    match (group, opcode)
    case (0x00, 0x02) => Some(DeviceInfo)
    case (0x00, 0x03) => Some(Capabilities)
    case (0x00, 0x04) => Some(ReadConfig)
    case (0x00, 0x05) => Some(ReadConfig)
    case (0x01, 0x04) => Some(ReadConfig)
    case (0x01, 0x00) => Some(SessionInit)
    case (0x01, 0x01) => Some(SessionDeinit)
    case (0x01, 0x03) => Some(SetAppConfig)
    case (0x01, 0x05) => Some(SessionCount)
    case (0x01, 0x06) => Some(SessionState)
    case (0x02, 0x00) => Some(RangeStart)
    case (0x02, 0x01) => Some(RangeStop)
    case (0x02, 0x03) => Some(RangingCount)
    case (0x0c, 0x01) => Some(CountryCode)
    case (0x0c, 0x00) => Some(PowerStats)
    case _ => None
  }

  function Group(request: seq<u8>): u8
    requires |request| >= 4
  {
    request[0] % 0x10
  }

  function Opcode(request: seq<u8>): u8
    requires |request| >= 4
  {
    request[1] % 0x40
  }

  /** The command of a request the adapter answers; truncated payloads are refused with the rest. */
  function Accepted(request: seq<u8>): Option<Command> {
    if |request| < 4 || MessageType(request[0]) != 1 then None
    else
      match Decode(Group(request), Opcode(request))
      case None => None
      case Some(c) => if (c == SessionInit || c == SetAppConfig) && |request| < 9 then None else Some(c)
  }

  function NextSession(s: Session, c: Command, request: seq<u8>): Session
    requires c == SessionInit ==> |request| >= 9
  {
    match c
    case SessionInit => Session(request[4..8], 0x00, 0, 0)
    case SessionDeinit => s.(state := DEINIT)
    case SetAppConfig => s.(state := 0x03)
    case RangeStart => Ranged(s).(state := 0x02)
    case RangeStop => s.(state := 0x03)
    case _ => s
  }

  function ResponsePayload(s: Session, c: Command): (p: seq<u8>)
    ensures |p| <= 128
  {
    match c
    case DeviceInfo => [0x00] + Le16(0x0200) + Le16(0x0100) + Le16(0x0100) + Le16(0x0100) + [0x00]
    case Capabilities => [0x00, 34] + FIRA_V2_CAPS
    case ReadConfig => [0x00, 0x00]
    case SessionInit => [0x00] + s.token
    case SessionDeinit => [0x00]
    case SetAppConfig => [0x00, 0x00]
    case SessionCount => [0x00, if s.state != DEINIT then 1 else 0]
    case SessionState => [0x00, s.state]
    case RangeStart => [0x00]
    case RangeStop => [0x00]
    case RangingCount => [0x00] + Le32(s.rangingCount)
    case CountryCode => [0x00]
    case PowerStats => [0, 0, 0, 0, 0, 0, 0, 0, 0, 0, 0, 0, 0, 0, 0, 0, 0]
  }

  /** The commands after which the session state is reported. */
  predicate ReportsStatus(c: Command) {
    c == SessionInit || c == SessionDeinit || c == SetAppConfig || c == RangeStart || c == RangeStop
  }

  /** The notifications a command sends after its response; `s` is the session it leaves. */
  function Notifications(s: Session, c: Command): seq<seq<u8>> {
    if c == RangeStart then [StatusNotification(s), RangeNotification(s)]
    else if ReportsStatus(c) then [StatusNotification(s)]
    else []
  }

  /** The session after a request and the packets sent for it. */
  datatype Answer = Answer(session: Session, packets: seq<seq<u8>>)

  /** None when the request is refused. */
  function Respond(s: Session, request: seq<u8>): Option<Answer> {
    match Accepted(request)
    case None => None
    case Some(c) =>
      var next := NextSession(s, c, request);
      var response := Packet(2, Group(request), Opcode(request), ResponsePayload(next, c));
      Some(Answer(next, [response] + Notifications(next, c)))
  }

  // ---------------------------------------------------------------------------------------------
  // Every answer is well formed
  // ---------------------------------------------------------------------------------------------

  /** A whole frame with the given type, group and opcode. */
  predicate IsPacket(p: seq<u8>, messageType: u8, group: u8, opcode: u8) {
    && |p| >= 4 && MessageType(p[0]) == messageType && p[0] % 0x20 == group && p[1] == opcode
    && p[2] == 0 && |p| - 4 == p[3]
  }

  lemma PacketIsPacket(messageType: u8, group: u8, opcode: u8, payload: seq<u8>)
    requires messageType < 8 && group < 16 && |payload| < 0x100
    ensures IsPacket(Packet(messageType, group, opcode, payload), messageType, group, opcode)
  {
  }

  lemma IsPacketReadsBack(p: seq<u8>, messageType: u8, group: u8, opcode: u8, rest: seq<u8>)
    requires IsPacket(p, messageType, group, opcode) && messageType > 0
    ensures ReadFrame(p + rest) == Got(p, rest)
  {
    assert (p + rest)[0] == p[0] && (p + rest)[3] == p[3];
    assert (p + rest)[..|p|] == p && (p + rest)[|p|..] == rest;
  }

  /** A command packet of a group and opcode, as it stands in the bytes. */
  predicate IsCommand(request: seq<u8>, group: u8, opcode: u8) {
    && |request| >= 4 && 0x20 <= request[0] < 0x40
    && request[0] % 0x10 == group && request[1] % 0x40 == opcode
  }

  /** The fifteen commands that are answered; init and configuration need five bytes of payload. */
  predicate IsSupported(request: seq<u8>) {
    || IsCommand(request, 0, 2) || IsCommand(request, 0, 3) || IsCommand(request, 0, 4) || IsCommand(request, 0, 5)
    || (IsCommand(request, 1, 0) && |request| >= 9) || IsCommand(request, 1, 1)
    || (IsCommand(request, 1, 3) && |request| >= 9) || IsCommand(request, 1, 4) || IsCommand(request, 1, 5)
    || IsCommand(request, 1, 6) || IsCommand(request, 2, 0) || IsCommand(request, 2, 1) || IsCommand(request, 2, 3)
    || IsCommand(request, 12, 0) || IsCommand(request, 12, 1)
  }

  /** Exactly these are answered, and all other requests are refused. */
  lemma SupportedExactly(s: Session, request: seq<u8>)
    ensures Respond(s, request).Some? <==> IsSupported(request)
  {
  }

  /** The commands that change the session: init, deinit, configuration, start and stop. */
  predicate ChangesSession(request: seq<u8>) {
    || IsCommand(request, 1, 0) || IsCommand(request, 1, 1) || IsCommand(request, 1, 3)
    || IsCommand(request, 2, 0) || IsCommand(request, 2, 1)
  }

  /**
   A supported request is answered by one response with its own group and opcode, followed by a
   status notification when the session changes, and by a range notification when ranging starts.
   */
  lemma AnswerShape(s: Session, request: seq<u8>)
    requires Respond(s, request).Some?
    ensures |request| >= 4
    ensures var packets := Respond(s, request).value.packets;
            && |packets| == 1 + (if IsCommand(request, 2, 0) then 2 else if ChangesSession(request) then 1 else 0)
            && IsPacket(packets[0], 2, request[0] % 0x10, request[1] % 0x40)
            && (|packets| > 1 ==> IsPacket(packets[1], 3, 1, 2))
            && (|packets| > 2 ==> IsPacket(packets[2], 3, 2, 0))
  {
    var c := Accepted(request).value;
    var next := NextSession(s, c, request);
    CommandsByBytes(request);
    PacketIsPacket(2, Group(request), Opcode(request), ResponsePayload(next, c));
    PacketIsPacket(3, 1, 2, next.token + [next.state, 0]);
    PacketIsPacket(3, 2, 0, RangePayload(next));
  }

  lemma CommandsByBytes(request: seq<u8>)
    requires Accepted(request).Some?
    ensures var c := Accepted(request).value;
            && (c == RangeStart <==> IsCommand(request, 2, 0)) && (c == SessionInit <==> IsCommand(request, 1, 0))
            && (c == RangingCount <==> IsCommand(request, 2, 3))
            && (ReportsStatus(c) <==> ChangesSession(request))
  {
  }

  lemma RangeFields(s: Session)
    ensures U32At(RangeNotification(s), 4) == s.sequenceNumber && RangeNotification(s)[8..12] == s.token
  {
    var p, header := RangeNotification(s), [3 * 0x20 + 2, 0, 0, 56];
    assert p == header + Le32(s.sequenceNumber) + (s.token + Measurement());
    Middle(header, Le32(s.sequenceNumber), s.token + Measurement());
    assert p == (header + Le32(s.sequenceNumber)) + s.token + Measurement();
    Middle(header + Le32(s.sequenceNumber), s.token, Measurement());
    Read32(p, 4, s.sequenceNumber);
  }

  /** The counters a request leaves behind are the ones its packets carry. */
  lemma CountersOnTheWire(s: Session, request: seq<u8>)
    requires Respond(s, request).Some?
    ensures var a := Respond(s, request).value;
            && (IsCommand(request, 2, 0) ==>
                  && |a.packets| == 3 && |a.packets[2]| == 60
                  && U32At(a.packets[2], 4) == a.session.sequenceNumber && a.packets[2][8..12] == s.token)
            && (IsCommand(request, 2, 3) ==>
                  |a.packets[0]| == 9 && U32At(a.packets[0], 5) == a.session.rangingCount == s.rangingCount)
  {
    var c := Accepted(request).value;
    var next := NextSession(s, c, request);
    CommandsByBytes(request);
    if c == RangeStart {
      RangeFields(next);
    } else if c == RangingCount {
      var p := Packet(2, Group(request), Opcode(request), ResponsePayload(next, c));
      assert p[5..9] == Le32(next.rangingCount);
      Read32(p, 5, next.rangingCount);
    }
  }

  /** The bytes of an answer hold exactly its packets: they read back with nothing left over. */
  lemma AnswerReadsBack(s: Session, request: seq<u8>)
    requires Respond(s, request).Some?
    ensures var packets := Respond(s, request).value.packets;
            ReadItems(ReadFrame, Flatten(packets)) == Reading(packets, [], false)
  {
    AnswerShape(s, request);
    var packets := Respond(s, request).value.packets;
    forall i, rest: seq<u8> | 0 <= i < |packets|
      ensures |packets[i]| > 0 && ReadFrame(packets[i] + rest) == Got(packets[i], rest)
    {
      if i == 0 {
        IsPacketReadsBack(packets[0], 2, request[0] % 0x10, request[1] % 0x40, rest);
      } else if i == 1 {
        IsPacketReadsBack(packets[1], 3, 1, 2, rest);
      } else {
        IsPacketReadsBack(packets[2], 3, 2, 0, rest);
      }
    }
    PacketsReadBack(packets);
  }

  function Same(p: seq<u8>): seq<u8> {
    p
  }

  lemma PacketsReadBack(packets: seq<seq<u8>>)
    requires forall i, rest: seq<u8> :: 0 <= i < |packets| ==>
               |packets[i]| > 0 && ReadFrame(packets[i] + rest) == Got(packets[i], rest)
    ensures ReadItems(ReadFrame, Flatten(packets)) == Reading(packets, [], false)
  {
    FlattenIsWrite(packets);
    forall p <- packets ensures |Same(p)| > 0 {
      var i :| 0 <= i < |packets| && packets[i] == p;
      assert |packets[i]| > 0 by { assert ReadFrame(packets[i] + []) == Got(packets[i], []); }
    }
    ItemsRoundTrip(ReadFrame, Same, packets);
  }

  lemma {:induction false} FlattenIsWrite(packets: seq<seq<u8>>)
    ensures Flatten(packets) == WriteItems(Same, packets)
  {
    if packets != [] {
      FlattenIsWrite(packets[1..]);
    }
  }

  // ---------------------------------------------------------------------------------------------
  // Sessions over whole runs
  // ---------------------------------------------------------------------------------------------

  /** The session as a machine over requests. */
  function Answering(s: Session, request: seq<u8>): Step<Session> {
    match Respond(s, request)
    case None => Refuse
    case Some(a) => Go(a.session, Flatten(a.packets))
  }

  /** The range-start commands since the last session-init command, or since the beginning. */
  function StartsSinceInit(requests: seq<seq<u8>>): nat {
    if requests == [] then 0
    else
      var last := requests[|requests| - 1];
      var earlier := StartsSinceInit(requests[..|requests| - 1]);
      if IsCommand(last, 1, 0) then 0 else if IsCommand(last, 2, 0) then earlier + 1 else earlier
  }

  predicate Bookkept(s: Session, requests: seq<seq<u8>>) {
    match s
    case Session(_, _, number, count) => number == count == StartsSinceInit(requests) % 0x1_0000_0000
  }

  lemma AnswerBookkeeps(s: Session, done: seq<seq<u8>>, request: seq<u8>)
    requires Bookkept(s, done) && Answering(s, request).Go?
    ensures Bookkept(Answering(s, request).state, done + [request])
  {
    assert (done + [request])[..|done|] == done;
    CommandsByBytes(request);
    WrapStep(StartsSinceInit(done));
  }

  lemma AnswersBookkeep()
    ensures Kept(Answering, Bookkept)
  {
    forall s, done, request ensures KeptAt(Answering, Bookkept, s, done, request) {
      if Bookkept(s, done) && Answering(s, request).Go? {
        AnswerBookkeeps(s, done, request);
      }
    }
  }

  lemma WrapStep(n: nat)
    ensures WrappingInc(n % 0x1_0000_0000) == (n + 1) % 0x1_0000_0000
  {
  }

  /**
   Over every run that is not refused, from the initial session or any other whose counters are zero, the
   sequence number and the ranging count agree and count the range starts since the last session init,
   modulo 2^32.
   */
  lemma CountersCountStarts(s: Session, requests: seq<seq<u8>>)
    requires s.sequenceNumber == s.rangingCount == 0 && !RunItems(Answering, s, requests).refused
    ensures var end := RunItems(Answering, s, requests).state;
            end.sequenceNumber == end.rangingCount == StartsSinceInit(requests) % 0x1_0000_0000
  {
    AnswersBookkeep();
    RunKeeps(Answering, Bookkept, s, [], requests);
    assert [] + requests == requests;
  }

  lemma FramesAreSelfContained()
    ensures SelfContained(ReadFrame)
  {
    forall bytes ensures StandsAlone(ReadFrame, bytes) {
      if ReadFrame(bytes).Got? {
        var length := FrameLength(bytes);
        assert bytes[..length][0] == bytes[0] && FrameLength(bytes[..length]) == length;
        assert bytes[..length][..length] == bytes[..length] && bytes[..length][length..] == [];
      }
    }
  }

  /**
   However the guest's input is cut into reads, the session ends in the state, and with the failure, of
   the uncut stream, unless the limit stops it; without a failure the answers are the same as well, and
   with one they are a front part of those to the frames that come before what fails.
   */
  lemma ChannelFollowsStream(chunks: seq<seq<u8>>)
    ensures Agrees(Serve(ReadFrame, Answering, MAX_GUEST_MESSAGE_BYTES, INITIAL, [], chunks),
                   Digest(ReadFrame, Answering, INITIAL, Flatten(chunks)))
  {
    FramesAreExtensible();
    ServeAgrees(ReadFrame, Answering, MAX_GUEST_MESSAGE_BYTES, INITIAL, [], chunks);
    assert [] + Flatten(chunks) == Flatten(chunks);
  }

  /** The first frame of a stream is rejected or refused. */
  predicate FailsAtOnce(stream: seq<u8>) {
    match ReadFrame(stream)
    case Wait => false
    case Bad => true
    case Got(frame, _) => !IsSupported(frame)
  }

  /** Every accepted frame is answered, so nothing is sent before a failure only if it comes first. */
  lemma SilentFailureComesFirst(stream: seq<u8>)
    requires Digest(ReadFrame, Answering, INITIAL, stream).failure.Some?
    ensures Digest(ReadFrame, Answering, INITIAL, stream).output == [] <==> FailsAtOnce(stream)
  {
    var next := ReadFrame(stream);
    if next.Got? {
      DigestStep(ReadFrame, Answering, INITIAL, stream);
      SupportedExactly(INITIAL, next.item);
      if IsSupported(next.item) {
        AnswerShape(INITIAL, next.item);
        assert |Flatten(Respond(INITIAL, next.item).value.packets)| >= 4;
      }
    }
  }

  /**
   What the channel sends for a stream of at most 64 KiB is independent of the cuts exactly when no frame
   of it is rejected or refused, or it is the first one that is.
   */
  lemma ChannelSendsAlikeExactly(stream: seq<u8>)
    requires |stream| <= MAX_GUEST_MESSAGE_BYTES
    ensures SendsAlike(ReadFrame, Answering, MAX_GUEST_MESSAGE_BYTES, INITIAL, stream)
            <==> Digest(ReadFrame, Answering, INITIAL, stream).failure.None? || FailsAtOnce(stream)
  {
    FramesAreExtensible();
    FramesAreSelfContained();
    SendsAlikeExactly(ReadFrame, Answering, MAX_GUEST_MESSAGE_BYTES, INITIAL, stream);
    if Digest(ReadFrame, Answering, INITIAL, stream).failure.Some? {
      SilentFailureComesFirst(stream);
    }
  }

  /** For longer streams: cuts that stay within the limit agree on what is sent under the same condition. */
  lemma ChannelCutsAgree(chunks: seq<seq<u8>>, others: seq<seq<u8>>)
    requires Flatten(chunks) == Flatten(others)
    requires Serve(ReadFrame, Answering, MAX_GUEST_MESSAGE_BYTES, INITIAL, [], chunks).failure != Some(TooLong)
    requires Serve(ReadFrame, Answering, MAX_GUEST_MESSAGE_BYTES, INITIAL, [], others).failure != Some(TooLong)
    ensures var one := Serve(ReadFrame, Answering, MAX_GUEST_MESSAGE_BYTES, INITIAL, [], chunks);
            var other := Serve(ReadFrame, Answering, MAX_GUEST_MESSAGE_BYTES, INITIAL, [], others);
            var whole := Digest(ReadFrame, Answering, INITIAL, Flatten(chunks));
            && one.state == other.state && one.failure == other.failure
            && (whole.failure.None? || FailsAtOnce(Flatten(chunks)) ==> one.output == other.output)
  {
    FramesAreExtensible();
    if Digest(ReadFrame, Answering, INITIAL, Flatten(chunks)).failure.Some? {
      SilentFailureComesFirst(Flatten(chunks));
    }
    CutsAgree(ReadFrame, Answering, MAX_GUEST_MESSAGE_BYTES, INITIAL, chunks, others);
  }

  /** More than 64 KiB that are not a complete frame end the channel. */
  lemma LongInputEndsChannel(s: Session, residue: seq<u8>, chunk: seq<u8>)
    requires |residue| + |chunk| > 65536
    ensures Receive(ReadFrame, Answering, MAX_GUEST_MESSAGE_BYTES, s, residue, chunk)
         == Service(s, residue, [], Some(TooLong))
  {
  }

  const DEVICE_INFO_REQUEST: seq<u8> := [0x20, 0x02, 0x00, 0x00]
  const UNSUPPORTED_REQUEST: seq<u8> := [0x2F, 0x3F, 0x00, 0x00]

  /** A device-info command and an unsupported one: in one read nothing is answered, in two reads the first is. */
  lemma OneReadLosesAnswer()
    ensures Serve(ReadFrame, Answering, MAX_GUEST_MESSAGE_BYTES, INITIAL, [],
                  [DEVICE_INFO_REQUEST + UNSUPPORTED_REQUEST]).output == []
    ensures Serve(ReadFrame, Answering, MAX_GUEST_MESSAGE_BYTES, INITIAL, [],
                  [DEVICE_INFO_REQUEST, UNSUPPORTED_REQUEST]).output
         == Packet(2, 0, 2, ResponsePayload(INITIAL, DeviceInfo)) != []
  {
    var ok, bad := DEVICE_INFO_REQUEST, UNSUPPORTED_REQUEST;
    RequestsDigested();
    ServedInOne(ReadFrame, Answering, MAX_GUEST_MESSAGE_BYTES, INITIAL, ok + bad);
    assert [] + bad == bad;
    ServedInTwo(ReadFrame, Answering, MAX_GUEST_MESSAGE_BYTES, INITIAL, ok, bad);
  }

  lemma RequestsAnswered()
    ensures Answering(INITIAL, DEVICE_INFO_REQUEST)
         == Go(INITIAL, Packet(2, 0, 2, ResponsePayload(INITIAL, DeviceInfo)))
    ensures Answering(INITIAL, UNSUPPORTED_REQUEST) == Refuse
  {
    FlattenOne(Packet(2, 0, 2, ResponsePayload(INITIAL, DeviceInfo)));
  }

  lemma RequestsDigested()
    ensures Digest(ReadFrame, Answering, INITIAL, DEVICE_INFO_REQUEST + UNSUPPORTED_REQUEST).failure.Some?
    ensures Digest(ReadFrame, Answering, INITIAL, UNSUPPORTED_REQUEST).failure.Some?
    ensures Digest(ReadFrame, Answering, INITIAL, DEVICE_INFO_REQUEST)
         == Service(INITIAL, [], Packet(2, 0, 2, ResponsePayload(INITIAL, DeviceInfo)), None)
  {
    var ok, bad := DEVICE_INFO_REQUEST, UNSUPPORTED_REQUEST;
    var answer := Packet(2, 0, 2, ResponsePayload(INITIAL, DeviceInfo));
    RequestsRead(bad);
    RequestsAnswered();
    AnswerThenFailure(ok, bad, answer);
  }

  lemma AnswerThenFailure(ok: seq<u8>, bad: seq<u8>, answer: seq<u8>)
    requires ReadFrame(ok + bad) == Got(ok, bad) && ReadFrame(ok) == Got(ok, []) && ReadFrame(bad) == Got(bad, [])
    requires ok != [] && bad != [] && Answering(INITIAL, ok) == Go(INITIAL, answer) && Answering(INITIAL, bad) == Refuse
    ensures Digest(ReadFrame, Answering, INITIAL, ok + bad).failure.Some?
    ensures Digest(ReadFrame, Answering, INITIAL, bad).failure.Some?
    ensures Digest(ReadFrame, Answering, INITIAL, ok) == Service(INITIAL, [], answer, None)
  {
    DigestStep(ReadFrame, Answering, INITIAL, ok + bad);
    DigestStep(ReadFrame, Answering, INITIAL, ok);
    DigestStep(ReadFrame, Answering, INITIAL, bad);
    assert answer + [] == answer;
  }

  lemma RequestsRead(bad: seq<u8>)
    requires bad == UNSUPPORTED_REQUEST
    ensures ReadFrame(DEVICE_INFO_REQUEST + bad) == Got(DEVICE_INFO_REQUEST, bad)
    ensures ReadFrame(DEVICE_INFO_REQUEST) == Got(DEVICE_INFO_REQUEST, []) && ReadFrame(bad) == Got(bad, [])
  {
    var ok := DEVICE_INFO_REQUEST;
    assert (ok + bad)[..4] == ok && (ok + bad)[4..] == bad;
    assert ok[..4] == ok && ok[4..] == [] && bad[..4] == bad && bad[4..] == [];
  }

  // ---------------------------------------------------------------------------------------------
  // The objects of the adapter
  // ---------------------------------------------------------------------------------------------

  /** The packet encoder, which refuses payloads that do not fit the length byte. */
  method EncodePacket(messageType: u8, group: u8, opcode: u8, payload: seq<u8>) returns (r: Option<seq<u8>>)
    requires messageType < 8 && group < 16
    ensures r == if |payload| < 0x100 then Some(Packet(messageType, group, opcode, payload)) else None
  {
    if |payload| > 0xFF {
      return None;
    }
    var packet := [messageType * 0x20 + group, opcode, 0x00];
    packet := packet + [|payload|];
    assert packet == [messageType * 0x20 + group, opcode, 0x00, |payload|];
    r := Some(packet + payload);
  }

  class UwbSession {
    var token: Token
    var state: u8
    var sequenceNumber: u32
    var rangingCount: u32

    function State(): Session
      reads this
    {
      Session(token, state, sequenceNumber, rangingCount)
    }

    constructor ()
      ensures State() == INITIAL
    {
      token, state, sequenceNumber, rangingCount := [0, 0, 0, 0], DEINIT, 0, 0;
    }

    /** Moves the session for a command and collects what has to be reported about it. */
    method Apply(c: Command, request: seq<u8>) returns (notifications: seq<u8>)
      requires c == SessionInit ==> |request| >= 9
      modifies this
      ensures State() == NextSession(old(State()), c, request)
      ensures notifications == Flatten(Notifications(State(), c))
    {
      notifications := [];
      match c {
        case SessionInit =>
          token := request[4..8];
          state, sequenceNumber, rangingCount := 0x00, 0, 0;
        case SessionDeinit => state := DEINIT;
        case SetAppConfig => state := 0x03;
        case RangeStart => state := 0x02;
        case RangeStop => state := 0x03;
        case _ => return;
      }
      var status := EncodePacket(3, 1, 2, token + [state, 0x00]);
      notifications := notifications + status.value;
      assert notifications == status.value;
      FlattenOne(status.value);
      if c == RangeStart {
        sequenceNumber, rangingCount := WrappingInc(sequenceNumber), WrappingInc(rangingCount);
        var range := EncodePacket(3, 2, 0, RangePayload(State()));
        notifications := notifications + range.value;
        FlattenTwo(status.value, range.value);
      }
    }

    method Respond(request: seq<u8>) returns (r: Option<seq<u8>>)
      modifies this
      ensures match Answering(old(State()), request)
              case Refuse => r == None && State() == old(State())
              case Go(next, output) => r == Some(output) && State() == next
    {
      var command := Accepted(request);
      if command.None? {
        return None;
      }
      var notifications := Apply(command.value, request);
      var response := EncodePacket(2, Group(request), Opcode(request), ResponsePayload(State(), command.value));
      r := Some(response.value + notifications);
    }
  }

  class GuestChannel {
    var pending: seq<u8>
    const session: UwbSession

    constructor ()
      ensures pending == [] && fresh(session) && session.State() == INITIAL
    {
      pending := [];
      session := new UwbSession();
    }

    /** Takes the first complete frame off the pending bytes. */
    method TakeFrame() returns (r: Next<seq<u8>>)
      modifies this`pending
      ensures r == ReadFrame(old(pending))
      ensures pending == if r.Got? then r.rest else old(pending)
    {
      r := ReadFrame(pending);
      if r.Got? {
        pending := r.rest;
      }
    }

    /** One read of the guest's output: every complete frame is answered, in order. */
    method Receive(chunk: seq<u8>) returns (output: seq<u8>, failure: Option<Failure>)
      modifies this, session
      ensures var o := Streams.Receive(ReadFrame, Answering, MAX_GUEST_MESSAGE_BYTES,
                                       old(session.State()), old(pending), chunk);
              && failure == o.failure && output == o.output && session.State() == o.state
              && (failure.None? ==> pending == o.residue)
    {
      ghost var s0, all := session.State(), pending + chunk;
      output, failure := [], None;
      if |pending + chunk| > MAX_GUEST_MESSAGE_BYTES {
        return [], Some(TooLong);
      }
      pending := pending + chunk;
      ghost var whole := Digest(ReadFrame, Answering, s0, all);
      while true
        invariant whole == Onward(output, Digest(ReadFrame, Answering, session.State(), pending))
        decreases |pending|
      {
        ghost var s, bytes := session.State(), pending;
        var frame := TakeFrame();
        if frame.Bad? {
          return [], Some(BadItem);
        }
        if frame.Wait? {
          return;
        }
        DigestStep(ReadFrame, Answering, s, bytes);
        var response := session.Respond(frame.item);
        if response.None? {
          return [], Some(Refused);
        }
        Joined(output, response.value, Digest(ReadFrame, Answering, session.State(), pending).output);
        output := output + response.value;
      }
    }
  }
}

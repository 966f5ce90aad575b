/**
 A virtual Bluetooth peer: attribute PDUs wrapped in L2CAP and ACL packets, and a server over a fixed
 table of three attributes (Bluetooth Core, Vol 3 Parts A, F and G).
 */
module GattServer {
  import opened Wrappers
  import opened Bytes

  const GATT_MTU := 247
  const ATT_CHANNEL: u16 := 0x0004

  // ---------------------------------------------------------------------------------------------
  // ACL and L2CAP
  // ---------------------------------------------------------------------------------------------

  /** The handle with the packet boundary flag 10b (first flushable fragment) set in its upper bits. */
  function Flagged(handle: u16): u16 {
    if handle / 0x2000 % 2 == 1 then handle else handle + 0x2000
  }

  /** The packet for a PDU; a PDU that does not fit the length field is dropped, and the ACL length saturates. */
  function SendAtt(handle: u16, att: seq<u8>): Option<seq<u8>> {
    if |att| > 0xFFFF then None
    else Some(Le16(Flagged(handle)) + Le16(Min(|att| + 4, 0xFFFF)) + Le16(|att|) + Le16(ATT_CHANNEL) + att)
  }

  datatype Request = Request(handle: u16, att: seq<u8>)

  /** The connection handle and PDU of an ACL packet, unless it is too short or not for the attribute channel. */
  function ReceiveAcl(packet: seq<u8>): Option<Request> {
    if |packet| < 8 then None
    else if |packet| < 4 + U16At(packet, 2) || U16At(packet, 6) != ATT_CHANNEL then None
    else if |packet| < 8 + U16At(packet, 4) then None
    else Some(Request(U16At(packet, 0) % 0x1000, packet[8..8 + U16At(packet, 4)]))
  }

  lemma SentFields(handle: u16, att: seq<u8>)
    requires |att| <= 0xFFFF
    ensures var packet := SendAtt(handle, att).value;
            && |packet| == 8 + |att| && packet[8..] == att
            && U16At(packet, 0) == Flagged(handle) && U16At(packet, 2) == Min(|att| + 4, 0xFFFF)
            && U16At(packet, 4) == |att| && U16At(packet, 6) == ATT_CHANNEL
  {
    var packet := SendAtt(handle, att).value;
    assert packet[0..2] == Le16(Flagged(handle)) && packet[2..4] == Le16(Min(|att| + 4, 0xFFFF));
    assert packet[4..6] == Le16(|att|) && packet[6..8] == Le16(ATT_CHANNEL);
    Read16(packet, 0, Flagged(handle));
    Read16(packet, 2, Min(|att| + 4, 0xFFFF));
    Read16(packet, 4, |att|);
    Read16(packet, 6, ATT_CHANNEL);
  }

  /**
   Every PDU that is sent at all is received whole on its own connection, even where the ACL length
   saturates; the ACL length is the true one exactly up to 65531 bytes.
   */
  lemma AttRoundTrip(handle: u16, att: seq<u8>)
    ensures SendAtt(handle, att).Some? <==> |att| <= 0xFFFF
    ensures |att| <= 0xFFFF ==> ReceiveAcl(SendAtt(handle, att).value) == Some(Request(handle % 0x1000, att))
    ensures |att| <= 0xFFFF ==>
              (U16At(SendAtt(handle, att).value, 2) == |SendAtt(handle, att).value| - 4 <==> |att| <= 65_531)
  {
    if |att| <= 0xFFFF {
      SentFields(handle, att);
      var packet := SendAtt(handle, att).value;
      assert packet[8..8 + |att|] == packet[8..];
    }
  }

  // ---------------------------------------------------------------------------------------------
  // The server
  // ---------------------------------------------------------------------------------------------

  const FIND_INFORMATION: u8 := 0x04
  const READ_BY_TYPE: u8 := 0x08
  const READ_BY_GROUP_TYPE: u8 := 0x10

  const PRIMARY_SERVICE: u16 := 0x2800
  const CHARACTERISTIC: u16 := 0x2803
  const DEVICE_NAME: u16 := 0x2A00

  const INVALID_HANDLE: u8 := 0x01
  const NOT_FOUND: u8 := 0x0A
  const UNSUPPORTED_GROUP: u8 := 0x10

  function AttError(opcode: u8, handle: u16, error: u8): seq<u8> {
    [0x01, opcode] + Le16(handle) + [error]
  }

  function Pair(handle: u16, kind: u16, start: u16): seq<u8> {
    if handle >= start then Le16(handle) + Le16(kind) else []
  }

  function GattResponse(name: seq<u8>, request: seq<u8>): Option<seq<u8>> {
    if request == [] then None
    else
      var opcode := request[0];
      if opcode == 0x02 && |request| >= 3 then Some([0x03] + Le16(GATT_MTU))
      else if opcode == 0x04 && |request| >= 5 then
        var start := U16At(request, 1);
        if start > 3 then Some(AttError(opcode, start, NOT_FOUND))
        else Some([0x05, 0x01] + Pair(1, PRIMARY_SERVICE, start) + Pair(2, CHARACTERISTIC, start)
                  + Pair(3, DEVICE_NAME, start))
      else if opcode == 0x08 && |request| >= 7 then
        var start, kind := U16At(request, 1), U16At(request, 5);
        if kind == PRIMARY_SERVICE && start <= 1 then Some([0x09, 0x06, 1, 0, 3, 0, 0, 0x18])
        else if kind == CHARACTERISTIC && start <= 2 then Some([0x09, 0x07, 2, 0, 0x02, 3, 0, 0, 0x2A])
        else Some(AttError(opcode, start, NOT_FOUND))
      else if opcode == 0x0A && |request| >= 3 then
        var handle := U16At(request, 1);
        if handle == 3 then
          var response := [0x0B] + name;
          Some(response[..Min(|response|, GATT_MTU)])
        else Some(AttError(opcode, handle, NOT_FOUND))
      else if opcode == 0x10 && |request| >= 7 then
        var start, kind := U16At(request, 1), U16At(request, 5);
        if kind == PRIMARY_SERVICE && start <= 1 then Some([0x11, 0x06, 1, 0, 3, 0, 0, 0x18])
        else Some(AttError(opcode, start, NOT_FOUND))
      else if opcode == 0x12 && |request| >= 3 then Some(AttError(opcode, U16At(request, 1), 0x03))
      else if opcode == 0x52 || opcode == 0x1E then None
      else Some(AttError(opcode, 0, 0x06))
  }

  /** The packet sent for an ACL packet, if any. */
  function HandlePeerAcl(name: seq<u8>, packet: seq<u8>): Option<seq<u8>> {
    match ReceiveAcl(packet)
    case None => None
    case Some(request) =>
      match GattResponse(name, request.att)
      case None => None
      case Some(response) => SendAtt(request.handle, response)
  }

  /** No response is longer than the MTU, whatever the name of the peer. */
  lemma ResponseFitsMtu(name: seq<u8>, request: seq<u8>)
    requires GattResponse(name, request).Some?
    ensures 0 < |GattResponse(name, request).value| <= GATT_MTU
  {
  }

  /**
   A request sent on a connection is answered on the same connection with exactly the server's
   response, in a packet whose length field is true; it is left unanswered when there is no response.
   */
  lemma RequestAnswered(name: seq<u8>, handle: u16, request: seq<u8>)
    requires |request| <= 0xFFFF
    ensures var reply := HandlePeerAcl(name, SendAtt(handle, request).value);
            match GattResponse(name, request)
            case None => reply == None
            case Some(response) =>
              reply.Some? && ReceiveAcl(reply.value) == Some(Request(handle % 0x1000, response))
              && U16At(reply.value, 2) == |reply.value| - 4
  {
    AttRoundTrip(handle, request);
    match GattResponse(name, request)
    case None =>
    case Some(response) =>
      ResponseFitsMtu(name, request);
      AttRoundTrip(handle % 0x1000, response);
  }

  // ---------------------------------------------------------------------------------------------
  // The attribute table the answers stand for
  // ---------------------------------------------------------------------------------------------

  datatype Attribute = Attribute(handle: u16, kind: u16, groupEnd: u16, value: seq<u8>)

  /** The generic access service, the declaration of its characteristic, and the device name. */
  function Table(name: seq<u8>): seq<Attribute> {
    [Attribute(1, PRIMARY_SERVICE, 3, [0x00, 0x18]),
     Attribute(2, CHARACTERISTIC, 2, [0x02, 3, 0, 0, 0x2A]),
     Attribute(3, DEVICE_NAME, 3, name)]
  }

  function InRange(table: seq<Attribute>, start: u16, end: u16): seq<Attribute> {
    if table == [] then []
    else (if start <= table[0].handle <= end then [table[0]] else []) + InRange(table[1..], start, end)
  }

  function OfKind(table: seq<Attribute>, kind: u16): seq<Attribute> {
    if table == [] then []
    else (if table[0].kind == kind then [table[0]] else []) + OfKind(table[1..], kind)
  }

  function Information(found: seq<Attribute>): seq<u8> {
    if found == [] then [] else Le16(found[0].handle) + Le16(found[0].kind) + Information(found[1..])
  }

  /** Find Information as the specification has it (Vol 3 Part F section 3.4.3.1). */
  function FindInformation(table: seq<Attribute>, start: u16, end: u16): seq<u8> {
    if start == 0 || start > end then AttError(FIND_INFORMATION, start, INVALID_HANDLE)
    else
      var found := InRange(table, start, end);
      if found == [] then AttError(FIND_INFORMATION, start, NOT_FOUND) else [0x05, 0x01] + Information(found)
  }

  /** Read By Type (section 3.4.4.1), where no two attributes of the table have the same type. */
  function ReadByType(table: seq<Attribute>, start: u16, end: u16, kind: u16): seq<u8> {
    if start == 0 || start > end then AttError(READ_BY_TYPE, start, INVALID_HANDLE)
    else
      var found := OfKind(InRange(table, start, end), kind);
      if found == [] then AttError(READ_BY_TYPE, start, NOT_FOUND)
      else
        var value := found[0].value[..Min(|found[0].value|, GATT_MTU - 4)];
        [0x09, 2 + |value|] + Le16(found[0].handle) + value
  }

  /** Read By Group Type (section 3.4.4.9), for which only services are groups. */
  function ReadByGroupType(table: seq<Attribute>, start: u16, end: u16, kind: u16): seq<u8> {
    if start == 0 || start > end then AttError(READ_BY_GROUP_TYPE, start, INVALID_HANDLE)
    else if kind != PRIMARY_SERVICE then AttError(READ_BY_GROUP_TYPE, start, UNSUPPORTED_GROUP)
    else
      var found := OfKind(InRange(table, start, end), kind);
      if found == [] then AttError(READ_BY_GROUP_TYPE, start, NOT_FOUND)
      else
        var value := found[0].value[..Min(|found[0].value|, GATT_MTU - 6)];
        [0x11, 4 + |value|] + Le16(found[0].handle) + Le16(found[0].groupEnd) + value
  }

  function Ask(opcode: u8, start: u16, end: u16): seq<u8> {
    [opcode] + Le16(start) + Le16(end)
  }

  function AskFor(opcode: u8, start: u16, end: u16, kind: u16): seq<u8> {
    Ask(opcode, start, end) + Le16(kind)
  }

  lemma AskedFields(opcode: u8, start: u16, end: u16, more: seq<u8>)
    ensures var request := Ask(opcode, start, end) + more;
            request[0] == opcode && U16At(request, 1) == start && |request| == 5 + |more|
  {
    var request := Ask(opcode, start, end) + more;
    assert request[1..3] == Le16(start);
    Read16(request, 1, start);
  }

  lemma AskedKind(opcode: u8, start: u16, end: u16, kind: u16)
    ensures var request := AskFor(opcode, start, end, kind);
            request[0] == opcode && U16At(request, 1) == start && U16At(request, 5) == kind && |request| == 7
  {
    AskedFields(opcode, start, end, Le16(kind));
    assert AskFor(opcode, start, end, kind)[5..7] == Le16(kind);
    Read16(AskFor(opcode, start, end, kind), 5, kind);
  }

  function Only(a: Attribute, start: u16, end: u16): seq<Attribute> {
    if start <= a.handle <= end then [a] else []
  }

  lemma TableInRange(name: seq<u8>, start: u16, end: u16)
    ensures var t := Table(name);
            InRange(t, start, end) == Only(t[0], start, end) + Only(t[1], start, end) + Only(t[2], start, end)
  {
    var t := Table(name);
    assert t[1..] == [t[1], t[2]] && t[1..][1..] == [t[2]] && [t[2]][1..] == [];
    assert InRange([t[2]], start, end) == Only(t[2], start, end);
    assert InRange(t[1..], start, end) == Only(t[1], start, end) + Only(t[2], start, end);
  }

  function Listed(a: Attribute, start: u16, end: u16): seq<u8> {
    if start <= a.handle <= end then Le16(a.handle) + Le16(a.kind) else []
  }

  lemma {:induction false} InformationJoined(x: seq<Attribute>, y: seq<Attribute>)
    ensures Information(x + y) == Information(x) + Information(y)
  {
    if x == [] {
      assert x + y == y;
    } else {
      assert (x + y)[1..] == x[1..] + y;
      InformationJoined(x[1..], y);
    }
  }

  lemma ListedIsInformation(a: Attribute, start: u16, end: u16)
    ensures Information(Only(a, start, end)) == Listed(a, start, end)
  {
    assert [a][1..] == [];
  }

  lemma TableInformation(name: seq<u8>, start: u16, end: u16)
    ensures var t := Table(name);
            Information(InRange(t, start, end))
            == Listed(t[0], start, end) + Listed(t[1], start, end) + Listed(t[2], start, end)
  {
    var t := Table(name);
    var a, b, c := Only(t[0], start, end), Only(t[1], start, end), Only(t[2], start, end);
    TableInRange(name, start, end);
    InformationJoined(a + b, c);
    InformationJoined(a, b);
    ListedIsInformation(t[0], start, end);
    ListedIsInformation(t[1], start, end);
    ListedIsInformation(t[2], start, end);
  }

  /** What the server answers to Find Information. */
  function InformationFrom(start: u16): seq<u8> {
    if start > 3 then AttError(FIND_INFORMATION, start, NOT_FOUND)
    else [0x05, 0x01] + Pair(1, PRIMARY_SERVICE, start) + Pair(2, CHARACTERISTIC, start) + Pair(3, DEVICE_NAME, start)
  }

  lemma AnswersInformation(name: seq<u8>, start: u16, end: u16)
    ensures GattResponse(name, Ask(FIND_INFORMATION, start, end)) == Some(InformationFrom(start))
  {
    AskedFields(FIND_INFORMATION, start, end, []);
    assert Ask(FIND_INFORMATION, start, end) + [] == Ask(FIND_INFORMATION, start, end);
  }

  lemma EntriesAreListed(name: seq<u8>, start: u16, end: u16)
    requires start <= 3 <= end
    ensures [0x05, 0x01] + Information(InRange(Table(name), start, end)) == InformationFrom(start)
  {
    TableInformation(name, start, end);
    var a, b, c := Pair(1, PRIMARY_SERVICE, start), Pair(2, CHARACTERISTIC, start), Pair(3, DEVICE_NAME, start);
    assert [0x05, 0x01] + (a + b + c) == [0x05, 0x01] + a + b + c;
  }

  /**
   The server ignores the ending handle and does not reject an empty range: its answer is the
   specified one exactly when the range is valid and, if it starts inside the table, reaches its end.
   */
  lemma FindInformationExactly(name: seq<u8>, start: u16, end: u16)
    ensures GattResponse(name, Ask(FIND_INFORMATION, start, end)) == Some(FindInformation(Table(name), start, end))
            <==> 1 <= start <= end && (start <= 3 ==> 3 <= end)
  {
    AnswersInformation(name, start, end);
    if start > 3 {
      TableInRange(name, start, end);
      ErrorsDiffer(FIND_INFORMATION, start);
    } else if end >= 3 {
      TableInRange(name, start, end);
      EntriesAreListed(name, start, end);
      assert InformationFrom(start)[0] != AttError(FIND_INFORMATION, start, INVALID_HANDLE)[0];
    } else {
      ShortRange(name, start, end);
    }
  }

  lemma ErrorsDiffer(opcode: u8, handle: u16)
    ensures AttError(opcode, handle, NOT_FOUND) != AttError(opcode, handle, INVALID_HANDLE)
  {
    assert AttError(opcode, handle, NOT_FOUND)[4] != AttError(opcode, handle, INVALID_HANDLE)[4];
  }

  lemma ShortRange(name: seq<u8>, start: u16, end: u16)
    requires start <= 3 && end < 3
    ensures FindInformation(Table(name), start, end) != InformationFrom(start)
  {
    TableInformation(name, start, end);
    var t := Table(name);
    assert |Listed(t[0], start, end)| <= |Pair(1, PRIMARY_SERVICE, start)|;
    assert |Listed(t[1], start, end)| <= |Pair(2, CHARACTERISTIC, start)|;
    assert |Listed(t[2], start, end)| < |Pair(3, DEVICE_NAME, start)|;
    assert |Information(InRange(t, start, end))| + 2 < |InformationFrom(start)|;
    assert InformationFrom(start)[0] == 0x05;
  }

  // Read By Type and Read By Group Type

  lemma TableOfKind(name: seq<u8>, start: u16, end: u16, kind: u16)
    ensures var t := Table(name);
            OfKind(InRange(t, start, end), kind)
            == if kind == PRIMARY_SERVICE then Only(t[0], start, end)
               else if kind == CHARACTERISTIC then Only(t[1], start, end)
               else if kind == DEVICE_NAME then Only(t[2], start, end)
               else []
  {
    var t := Table(name);
    var a, b, c := Only(t[0], start, end), Only(t[1], start, end), Only(t[2], start, end);
    TableInRange(name, start, end);
    OfKindJoined(a + b, c, kind);
    OfKindJoined(a, b, kind);
    assert [t[0]][1..] == [] && [t[1]][1..] == [] && [t[2]][1..] == [];
  }

  lemma {:induction false} OfKindJoined(x: seq<Attribute>, y: seq<Attribute>, kind: u16)
    ensures OfKind(x + y, kind) == OfKind(x, kind) + OfKind(y, kind)
  {
    if x == [] {
      assert x + y == y;
    } else {
      assert (x + y)[1..] == x[1..] + y;
      OfKindJoined(x[1..], y, kind);
    }
  }

  function TypeFrom(start: u16, kind: u16): seq<u8> {
    if kind == PRIMARY_SERVICE && start <= 1 then [0x09, 0x06, 1, 0, 3, 0, 0, 0x18]
    else if kind == CHARACTERISTIC && start <= 2 then [0x09, 0x07, 2, 0, 0x02, 3, 0, 0, 0x2A]
    else AttError(READ_BY_TYPE, start, NOT_FOUND)
  }

  /**
   The specified answer is given exactly for a valid range that reaches the characteristic if it is
   asked for and starts before it, and does not hold the device name if that is asked for.
   Services are the exception: read by type they are answered as a group, with an ending handle.
   */
  lemma ReadByTypeExactly(name: seq<u8>, start: u16, end: u16, kind: u16)
    ensures GattResponse(name, AskFor(READ_BY_TYPE, start, end, kind))
            == Some(ReadByType(Table(name), start, end, kind))
            <==> && 1 <= start <= end
                 && (kind == PRIMARY_SERVICE ==> start > 1)
                 && (kind == CHARACTERISTIC && start <= 2 ==> 2 <= end)
                 && (kind == DEVICE_NAME ==> !(start <= 3 <= end))
  {
    AskedKind(READ_BY_TYPE, start, end, kind);
    assert GattResponse(name, AskFor(READ_BY_TYPE, start, end, kind)) == Some(TypeFrom(start, kind));
    ErrorsDiffer(READ_BY_TYPE, start);
    if 1 <= start <= end {
      TableOfKind(name, start, end, kind);
      ValidReadByType(name, start, end, kind);
    } else {
      assert TypeFrom(start, kind) != AttError(READ_BY_TYPE, start, INVALID_HANDLE) by {
        assert TypeFrom(start, kind)[0] == 0x09 || TypeFrom(start, kind) == AttError(READ_BY_TYPE, start, NOT_FOUND);
      }
    }
  }

  lemma ValidReadByType(name: seq<u8>, start: u16, end: u16, kind: u16)
    requires 1 <= start <= end
    ensures TypeFrom(start, kind) == ReadByType(Table(name), start, end, kind)
            <==> && (kind == PRIMARY_SERVICE ==> start > 1)
                 && (kind == CHARACTERISTIC && start <= 2 ==> 2 <= end)
                 && (kind == DEVICE_NAME ==> !(start <= 3 <= end))
  {
    TableOfKind(name, start, end, kind);
    var found := OfKind(InRange(Table(name), start, end), kind);
    if found != [] {
      var value := found[0].value[..Min(|found[0].value|, GATT_MTU - 4)];
      var answer := [0x09, 2 + |value|] + Le16(found[0].handle) + value;
      assert answer[0] == 0x09 && answer[1] == 2 + |value|;
      if kind == CHARACTERISTIC {
        assert value == [0x02, 3, 0, 0, 0x2A];
        assert answer == [0x09, 0x07, 2, 0, 0x02, 3, 0, 0, 0x2A];
      }
    }
  }

  lemma ServiceAnswer(a: Attribute)
    requires a == Attribute(1, PRIMARY_SERVICE, 3, [0x00, 0x18])
    ensures [0x11, 4 + |a.value|] + Le16(a.handle) + Le16(a.groupEnd) + a.value[..Min(|a.value|, GATT_MTU - 6)]
         == [0x11, 0x06, 1, 0, 3, 0, 0, 0x18]
  {
  }

  /** Only primary services are groups; asking for any other group is answered with the wrong error. */
  lemma ReadByGroupTypeExactly(name: seq<u8>, start: u16, end: u16, kind: u16)
    ensures GattResponse(name, AskFor(READ_BY_GROUP_TYPE, start, end, kind))
            == Some(ReadByGroupType(Table(name), start, end, kind))
            <==> 1 <= start <= end && kind == PRIMARY_SERVICE
  {
    AskedKind(READ_BY_GROUP_TYPE, start, end, kind);
    ErrorsDiffer(READ_BY_GROUP_TYPE, start);
    var answer := GattResponse(name, AskFor(READ_BY_GROUP_TYPE, start, end, kind)).value;
    if 1 <= start <= end && kind == PRIMARY_SERVICE {
      TableOfKind(name, start, end, kind);
      ServiceAnswer(Table(name)[0]);
    } else {
      var unsupported := AttError(READ_BY_GROUP_TYPE, start, UNSUPPORTED_GROUP);
      assert unsupported[4] != AttError(READ_BY_GROUP_TYPE, start, NOT_FOUND)[4];
      assert answer[0] == 0x11 || answer == AttError(READ_BY_GROUP_TYPE, start, NOT_FOUND);
    }
  }

  // ---------------------------------------------------------------------------------------------
  // Discovery
  // ---------------------------------------------------------------------------------------------

  datatype Entry = Entry(handle: u16, last: u16, data: seq<u8>)

  /** The list of a reply, cut into entries of one size. */
  function Entries(list: seq<u8>, size: nat, grouped: bool): seq<Entry>
    requires size >= 4
  {
    if |list| < size then []
    else
      var last := if grouped then U16At(list, 2) else U16At(list, 0);
      [Entry(U16At(list, 0), last, list[if grouped then 4 else 2..size])] + Entries(list[size..], size, grouped)
  }

  /**
   A client that asks for attributes of one type until it gets an error or has reached the last handle
   (Vol 3 Part G sections 4.4.1 and 4.6.1); it gives up when a reply does not move it forward.
   */
  function Discover(name: seq<u8>, opcode: u8, start: u16, end: u16, kind: u16): seq<Entry>
    requires opcode == READ_BY_TYPE || opcode == READ_BY_GROUP_TYPE
    decreases 0x1_0000 - start
  {
    match GattResponse(name, AskFor(opcode, start, end, kind))
    case None => []
    case Some(reply) =>
      if |reply| < 2 || reply[0] != opcode + 1 || reply[1] < 4 then []
      else
        var found := Entries(reply[2..], reply[1], opcode == READ_BY_GROUP_TYPE);
        if found == [] then []
        else
          var last := found[|found| - 1].last;
          if start <= last < end then found + Discover(name, opcode, last + 1, end, kind) else found
  }

  function Listing(found: seq<Attribute>): seq<Entry> {
    if found == [] then [] else [Entry(found[0].handle, found[0].groupEnd, found[0].value)] + Listing(found[1..])
  }

  /** A client finds the services of every range, in one step per service. */
  lemma ServicesDiscovered(name: seq<u8>, start: u16, end: u16)
    requires 1 <= start <= end
    ensures Discover(name, READ_BY_GROUP_TYPE, start, end, PRIMARY_SERVICE)
         == Listing(OfKind(InRange(Table(name), start, end), PRIMARY_SERVICE))
    decreases 0x1_0000 - start
  {
    AskedKind(READ_BY_GROUP_TYPE, start, end, PRIMARY_SERVICE);
    TableOfKind(name, start, end, PRIMARY_SERVICE);
    if start == 1 {
      var list := [1, 0, 3, 0, 0, 0x18];
      assert [0x11, 0x06, 1, 0, 3, 0, 0, 0x18][2..] == list;
      assert list[6..] == [] && list[4..6] == [0, 0x18];
      assert Entries(list, 6, true) == [Entry(1, 3, [0, 0x18])];
      if end > 3 {
        ServicesDiscovered(name, 4, end);
        TableOfKind(name, 4, end, PRIMARY_SERVICE);
      }
    }
  }

  /** The client's first step: the one entry of the reply, and the rest behind it. */
  lemma CharacteristicStep(name: seq<u8>, start: u16, end: u16)
    requires start <= 2
    ensures Discover(name, READ_BY_TYPE, start, end, CHARACTERISTIC)
         == [Entry(2, 2, [0x02, 3, 0, 0, 0x2A])]
            + (if 2 < end then Discover(name, READ_BY_TYPE, 3, end, CHARACTERISTIC) else [])
  {
    AskedKind(READ_BY_TYPE, start, end, CHARACTERISTIC);
    var list := [2, 0, 0x02, 3, 0, 0, 0x2A];
    assert [0x09, 0x07, 2, 0, 0x02, 3, 0, 0, 0x2A][2..] == list;
    assert list[7..] == [] && list[2..7] == [0x02, 3, 0, 0, 0x2A];
    assert Entries(list, 7, false) == [Entry(2, 2, [0x02, 3, 0, 0, 0x2A])];
  }

  lemma NoCharacteristicBehind(name: seq<u8>, start: u16, end: u16)
    requires start > 2
    ensures Discover(name, READ_BY_TYPE, start, end, CHARACTERISTIC) == []
  {
    AskedKind(READ_BY_TYPE, start, end, CHARACTERISTIC);
  }

  /**
   A client finds exactly the characteristics of its range, in one step for each, unless the range ends
   in front of the characteristic: from 1 to 1 it is handed handle 2, which is not in its range.
   */
  lemma CharacteristicsDiscoveredExactly(name: seq<u8>, start: u16, end: u16)
    requires 1 <= start <= end
    ensures Discover(name, READ_BY_TYPE, start, end, CHARACTERISTIC)
            == Listing(OfKind(InRange(Table(name), start, end), CHARACTERISTIC))
            <==> (start <= 2 ==> 2 <= end)
  {
    TableOfKind(name, start, end, CHARACTERISTIC);
    if start <= 2 {
      CharacteristicStep(name, start, end);
      if 2 < end {
        NoCharacteristicBehind(name, 3, end);
      }
    } else {
      NoCharacteristicBehind(name, start, end);
    }
  }
}

/**
 The byte layout of the frame pipe: what the session reads from the graphics stream and the release
 messages it writes back. The encoders are the layouts a peer has to produce.
 */
module FrameWire {
  import opened Wrappers
  import opened Bytes
  import opened Streams
  import opened FrameBrokers

  const WIRE_MAGIC: u32 := 0x3246_4448
  const WIRE_VERSION: u16 := 2
  const KIND_REGISTER: u16 := 1
  const KIND_PUBLISH: u16 := 2
  const KIND_RELEASE: u16 := 3
  const HEADER_SIZE := 12
  const RELEASE_SIZE: u32 := 28

  function FromBool(b: bool): u8 {
    if b then 1 else 0
  }

  /** Two's complement reading of a 32-bit word. */
  function Signed32(bits: nat): int {
    if bits < 0x8000_0000 then bits else bits - 0x1_0000_0000
  }

  function Unsigned32(v: int): int {
    if v < 0 then v + 0x1_0000_0000 else v
  }

  // ---------------------------------------------------------------------------------------------
  // Reading
  // ---------------------------------------------------------------------------------------------

  datatype Header = Header(kind: u16, size: u32)

  /** None stands for a magic or version mismatch. */
  function ReadHeader(bytes: seq<u8>): Option<Header>
    requires |bytes| >= HEADER_SIZE
  {
    if U32At(bytes, 0) != WIRE_MAGIC || U16At(bytes, 4) != WIRE_VERSION then None
    else Some(Header(U16At(bytes, 6), U32At(bytes, 8)))
  }

  function ReadRegistration(body: seq<u8>): Registration
    requires |body| == 60
  {
    Registration(
      body[0], body[1] != 0, body[2] != 0, body[3] != 0,
      U32At(body, 4), U32At(body, 8), U32At(body, 12), U32At(body, 16), U32At(body, 20),
      U32At(body, 24), U32At(body, 28), Signed32(U32At(body, 32)),
      U64At(body, 36), U64At(body, 44), body[52..60])
  }

  function ReadPublication(body: seq<u8>): Publication
    requires |body| == 16
  {
    Publication(body[0], U64At(body, 8))
  }

  /** One message from the pipe: its header, and the body the header announces. */
  function ReadMessage(bytes: seq<u8>): Next<Message> {
    if |bytes| < HEADER_SIZE then Wait
    else
      match ReadHeader(bytes)
      case None => Bad
      case Some(h) =>
        if h.kind == KIND_REGISTER then
          if h.size != REGISTER_SIZE then Bad
          else if |bytes| < REGISTER_SIZE then Wait
          else Got(Register(h.size, ReadRegistration(bytes[HEADER_SIZE..REGISTER_SIZE])), bytes[REGISTER_SIZE..])
        else if h.kind == KIND_PUBLISH then
          if h.size != PUBLISH_SIZE then Bad
          else if |bytes| < PUBLISH_SIZE then Wait
          else Got(Post(h.size, ReadPublication(bytes[HEADER_SIZE..PUBLISH_SIZE])), bytes[PUBLISH_SIZE..])
        else Bad
  }

  // ---------------------------------------------------------------------------------------------
  // Writing
  // ---------------------------------------------------------------------------------------------

  function WriteHeader(kind: u16, size: u32): (b: seq<u8>)
    ensures |b| == HEADER_SIZE
  {
    Le32(WIRE_MAGIC) + Le16(WIRE_VERSION) + Le16(kind) + Le32(size)
  }

  ghost predicate WellFormedRegistration(r: Registration) {
    |r.luid| == 8 && -0x8000_0000 <= r.imageFormat < 0x8000_0000
  }

  function WriteRegistration(r: Registration): (b: seq<u8>)
    requires WellFormedRegistration(r)
    ensures |b| == 60
  {
    [r.bufferId, FromBool(r.dedicated), FromBool(r.linear), FromBool(r.luidValid)]
    + Le32(r.memoryTypeIndex) + Le32(r.width) + Le32(r.height) + Le32(r.strideBytes)
    + Le32(r.virglFormat) + Le32(r.createFlags) + Le32(r.usage) + Le32(Unsigned32(r.imageFormat))
    + Le64(r.allocationSize) + Le64(r.memoryHandle) + r.luid
  }

  /** The seven bytes after the buffer id are padding the reader ignores. */
  function WritePublication(p: Publication, padding: seq<u8>): (b: seq<u8>)
    requires |padding| == 7
    ensures |b| == 16
  {
    [p.bufferId] + padding + Le64(p.acquireValue)
  }

  ghost predicate WellFormed(m: Message) {
    match m
    case Register(size, r) => size == REGISTER_SIZE && WellFormedRegistration(r)
    case Post(size, _) => size == PUBLISH_SIZE
    case Unsupported(_) => false
  }

  function WriteMessage(m: Message, padding: seq<u8>): seq<u8>
    requires WellFormed(m) && |padding| == 7
  {
    match m
    case Register(size, r) => WriteHeader(KIND_REGISTER, size) + WriteRegistration(r)
    case Post(size, p) => WriteHeader(KIND_PUBLISH, size) + WritePublication(p, padding)
  }

  /** copy_from_slice into part of a buffer. */
  method Put(buffer: array<u8>, at: nat, field: seq<u8>)
    requires at + |field| <= buffer.Length
    modifies buffer
    ensures buffer[..at] == old(buffer[..at]) && buffer[at..at + |field|] == field
    ensures buffer[at + |field|..] == old(buffer[at + |field|..])
  {
    ghost var was := buffer[..];
    for i := 0 to |field|
      invariant forall k :: 0 <= k < buffer.Length ==> buffer[k] == if at <= k < at + i then field[k - at] else was[k]
    {
      buffer[at + i] := field[i];
    }
  }

  /** The body of a release: buffer id, verdict, six zero bytes and the release value. */
  function ReleaseBody(bufferId: u8, accepted: bool, value: u64): seq<u8> {
    [bufferId, FromBool(accepted), 0, 0, 0, 0, 0, 0] + Le64(value)
  }

  /** The release message as it is sent. */
  function ReleaseBytes(bufferId: u8, accepted: bool, value: u64): (b: seq<u8>)
    ensures |b| == RELEASE_SIZE
  {
    WriteHeader(KIND_RELEASE, RELEASE_SIZE) + ReleaseBody(bufferId, accepted, value)
  }

  /** The header fields of a release, written at the start of a buffer. */
  method PutReleaseHeader(buffer: array<u8>)
    requires buffer.Length == RELEASE_SIZE
    modifies buffer
    ensures buffer[..12] == WriteHeader(KIND_RELEASE, RELEASE_SIZE)
    ensures buffer[12..] == old(buffer[12..])
  {
    ghost var was := buffer[..];
    Put(buffer, 0, Le32(WIRE_MAGIC));
    assert buffer[4..] == was[4..];
    Put(buffer, 4, Le16(WIRE_VERSION));
    assert buffer[..6] == Le32(WIRE_MAGIC) + Le16(WIRE_VERSION) && buffer[6..] == was[6..];
    Put(buffer, 6, Le16(KIND_RELEASE));
    assert buffer[..8] == Le32(WIRE_MAGIC) + Le16(WIRE_VERSION) + Le16(KIND_RELEASE) && buffer[8..] == was[8..];
    Put(buffer, 8, Le32(RELEASE_SIZE));
  }

  /** The release message, filled in field by field in a zeroed buffer. */
  method WriteRelease(bufferId: u8, accepted: bool, value: u64) returns (bytes: seq<u8>)
    ensures bytes == ReleaseBytes(bufferId, accepted, value) && |bytes| == RELEASE_SIZE
    ensures ReadHeader(bytes) == Some(Header(KIND_RELEASE, RELEASE_SIZE))
    ensures bytes[12] == bufferId && (bytes[13] != 0 <==> accepted) && U64At(bytes, 20) == value
    ensures bytes[14..20] == [0, 0, 0, 0, 0, 0]
  {
    var buffer := new u8[28](_ => 0);
    assert buffer[12..] == seq(16, _ => 0);
    PutReleaseHeader(buffer);
    assert buffer[12..] == seq(16, _ => 0);
    ghost var header := buffer[..12];
    buffer[12] := bufferId;
    buffer[13] := FromBool(accepted);
    ghost var front := buffer[..20];
    assert front[..12] == header && front[12..] == [bufferId, FromBool(accepted), 0, 0, 0, 0, 0, 0];
    Put(buffer, 20, Le64(value));
    bytes := buffer[..];
    assert bytes == front + Le64(value);
    BodyBehindHeader(bytes, front, Le64(value));
    assert bytes == bytes[..12] + bytes[12..];
    ReleaseReadsBack(bytes, bufferId, accepted, value);
  }

  lemma BodyBehindHeader(bytes: seq<u8>, front: seq<u8>, last: seq<u8>)
    requires |front| >= 12 && bytes == front + last
    ensures bytes[..12] == front[..12] && bytes[12..] == front[12..] + last
  {
  }

  lemma ReleaseReadsBack(bytes: seq<u8>, bufferId: u8, accepted: bool, value: u64)
    requires |bytes| == RELEASE_SIZE && bytes[..12] == WriteHeader(KIND_RELEASE, RELEASE_SIZE)
    requires bytes[12..] == ReleaseBody(bufferId, accepted, value)
    ensures ReadHeader(bytes) == Some(Header(KIND_RELEASE, RELEASE_SIZE))
    ensures bytes[12] == bufferId && (bytes[13] != 0 <==> accepted) && U64At(bytes, 20) == value
    ensures bytes[14..20] == [0, 0, 0, 0, 0, 0]
  {
    assert bytes == WriteHeader(KIND_RELEASE, RELEASE_SIZE) + ReleaseBody(bufferId, accepted, value);
    HeaderRoundTrip(KIND_RELEASE, RELEASE_SIZE, ReleaseBody(bufferId, accepted, value));
    assert bytes[20..28] == Le64(value);
    Read64(bytes, 20, value);
  }

  // ---------------------------------------------------------------------------------------------
  // Round trips
  // ---------------------------------------------------------------------------------------------

  lemma HeaderRoundTrip(kind: u16, size: u32, rest: seq<u8>)
    ensures ReadHeader(WriteHeader(kind, size) + rest) == Some(Header(kind, size))
  {
    var bytes := WriteHeader(kind, size) + rest;
    assert bytes[0..4] == Le32(WIRE_MAGIC);
    assert bytes[4..6] == Le16(WIRE_VERSION);
    assert bytes[6..8] == Le16(kind);
    assert bytes[8..12] == Le32(size);
    Read32(bytes, 0, WIRE_MAGIC);
    Read16(bytes, 4, WIRE_VERSION);
    Read16(bytes, 6, kind);
    Read32(bytes, 8, size);
  }

  lemma RegistrationRoundTrip(r: Registration)
    requires WellFormedRegistration(r)
    ensures ReadRegistration(WriteRegistration(r)) == r
  {
    var body := WriteRegistration(r);
    assert body[4..8] == Le32(r.memoryTypeIndex);
    Read32(body, 4, r.memoryTypeIndex);
    assert body[8..12] == Le32(r.width);
    Read32(body, 8, r.width);
    assert body[12..16] == Le32(r.height);
    Read32(body, 12, r.height);
    assert body[16..20] == Le32(r.strideBytes);
    Read32(body, 16, r.strideBytes);
    assert body[20..24] == Le32(r.virglFormat);
    Read32(body, 20, r.virglFormat);
    assert body[24..28] == Le32(r.createFlags);
    Read32(body, 24, r.createFlags);
    assert body[28..32] == Le32(r.usage);
    Read32(body, 28, r.usage);
    assert body[32..36] == Le32(Unsigned32(r.imageFormat));
    Read32(body, 32, Unsigned32(r.imageFormat));
    assert body[36..44] == Le64(r.allocationSize);
    Read64(body, 36, r.allocationSize);
    assert body[44..52] == Le64(r.memoryHandle);
    Read64(body, 44, r.memoryHandle);
    assert body[52..60] == r.luid;
  }

  lemma PublicationRoundTrip(p: Publication, padding: seq<u8>)
    requires |padding| == 7
    ensures ReadPublication(WritePublication(p, padding)) == p
  {
    assert WritePublication(p, padding)[8..16] == Le64(p.acquireValue);
    Read64(WritePublication(p, padding), 8, p.acquireValue);
  }

  lemma RegisterRoundTrip(r: Registration, rest: seq<u8>)
    requires WellFormedRegistration(r)
    ensures ReadMessage(WriteHeader(KIND_REGISTER, REGISTER_SIZE) + WriteRegistration(r) + rest)
         == Got(Register(REGISTER_SIZE, r), rest)
  {
    var header, body := WriteHeader(KIND_REGISTER, REGISTER_SIZE), WriteRegistration(r);
    var bytes := header + body + rest;
    HeaderRoundTrip(KIND_REGISTER, REGISTER_SIZE, body + rest);
    assert bytes == header + (body + rest);
    Middle(header, body, rest);
    RegistrationRoundTrip(r);
  }

  lemma PostRoundTrip(p: Publication, padding: seq<u8>, rest: seq<u8>)
    requires |padding| == 7
    ensures ReadMessage(WriteHeader(KIND_PUBLISH, PUBLISH_SIZE) + WritePublication(p, padding) + rest)
         == Got(Post(PUBLISH_SIZE, p), rest)
  {
    var header, body := WriteHeader(KIND_PUBLISH, PUBLISH_SIZE), WritePublication(p, padding);
    var bytes := header + body + rest;
    HeaderRoundTrip(KIND_PUBLISH, PUBLISH_SIZE, body + rest);
    assert bytes == header + (body + rest);
    Middle(header, body, rest);
    PublicationRoundTrip(p, padding);
  }

  /** The writer of well-formed messages with some padding in publications. */
  ghost function Writer(padding: seq<u8>): Message --> seq<u8>
    requires |padding| == 7
  {
    m requires WellFormed(m) => WriteMessage(m, padding)
  }

  /** Every sequence of well-formed messages is read back as itself, and nothing is left in the pipe. */
  lemma StreamRoundTrip(ms: seq<Message>, padding: seq<u8>)
    requires |padding| == 7
    requires forall m <- ms :: WellFormed(m)
    ensures ReadItems(ReadMessage, WriteItems(Writer(padding), ms)) == Reading(ms, [], false)
  {
    var write := Writer(padding);
    forall m <- ms, rest: seq<u8> ensures ReadMessage(write(m) + rest) == Got(m, rest) {
      if m.Register? {
        RegisterRoundTrip(m.registration, rest);
      } else {
        PostRoundTrip(m.publication, padding, rest);
      }
    }
    ItemsRoundTrip(ReadMessage, write, ms);
  }

  // ---------------------------------------------------------------------------------------------
  // Reading releases back: the inverse of the writer, for the other end of the pipe
  // ---------------------------------------------------------------------------------------------

  datatype Release = Release(bufferId: u8, accepted: bool, value: u64)

  function EncodeRelease(r: Release): seq<u8> {
    ReleaseBytes(r.bufferId, r.accepted, r.value)
  }

  function ReadRelease(bytes: seq<u8>): Next<Release> {
    if |bytes| < RELEASE_SIZE then Wait
    else if ReadHeader(bytes) != Some(Header(KIND_RELEASE, RELEASE_SIZE)) then Bad
    else Got(Release(bytes[12], bytes[13] != 0, U64At(bytes, 20)), bytes[RELEASE_SIZE..])
  }

  lemma ReleaseRoundTrip(r: Release, rest: seq<u8>)
    ensures ReadRelease(EncodeRelease(r) + rest) == Got(r, rest)
  {
    var header, body := WriteHeader(KIND_RELEASE, RELEASE_SIZE), ReleaseBody(r.bufferId, r.accepted, r.value);
    var bytes := EncodeRelease(r) + rest;
    HeaderRoundTrip(KIND_RELEASE, RELEASE_SIZE, body + rest);
    assert bytes == header + (body + rest);
    assert bytes[20..28] == Le64(r.value);
    Read64(bytes, 20, r.value);
  }

  /** Every sequence of releases is read back as itself. */
  lemma ReleasesRoundTrip(releases: seq<Release>)
    ensures ReadItems(ReadRelease, WriteItems(EncodeRelease, releases)) == Reading(releases, [], false)
  {
    forall r <- releases ensures |EncodeRelease(r)| > 0 {
    }
    forall r <- releases, rest: seq<u8> ensures ReadRelease(EncodeRelease(r) + rest) == Got(r, rest) {
      ReleaseRoundTrip(r, rest);
    }
    ItemsRoundTrip(ReadRelease, EncodeRelease, releases);
  }
}

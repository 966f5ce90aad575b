/**
 The sensor bridge of the device simulator: requests arrive in length-prefixed frames, and bytes that
 cannot start a frame are read as lines instead.
 */
module SensorFrames {
  import opened Wrappers
  import opened Bytes
  import opened Streams
  import opened Lines

  const MAX_PAYLOAD_BYTES := 1024 * 1024
  const UPDATE_HAL_COMMAND: u32 := 2
  const HOST_BIT: u32 := 0x8000_0000

  datatype Frame = Frame(command: u32, payload: seq<u8>)

  /** The command word without its top bit is small, and so is the payload. */
  predicate Plausible(command: u32, size: u32) {
    command % HOST_BIT <= 0xFFFF && size <= MAX_PAYLOAD_BYTES
  }

  function ReadFrame(bytes: seq<u8>): (n: Next<Frame>)
    ensures n.Got? ==> |n.rest| < |bytes|
  {
    if |bytes| < 8 then Wait
    else if !Plausible(U32At(bytes, 0), U32At(bytes, 4)) then Bad
    else
      var total := 8 + U32At(bytes, 4);
      if |bytes| < total then Wait else Got(Frame(U32At(bytes, 0), bytes[8..total]), bytes[total..])
  }

  lemma FramesAreExtensible()
    ensures Extensible(ReadFrame)
  {
    forall bytes, more ensures ExtendsAt(ReadFrame, bytes, more) {
      if |bytes| >= 8 {
        SameWord(bytes, more, 0);
        SameWord(bytes, more, 4);
        var total := 8 + U32At(bytes, 4);
        if total <= |bytes| {
          assert (bytes + more)[8..total] == bytes[8..total] && (bytes + more)[total..] == bytes[total..] + more;
        }
      }
    }
  }

  lemma SameWord(bytes: seq<u8>, more: seq<u8>, at: nat)
    requires at + 4 <= |bytes|
    ensures U32At(bytes + more, at) == U32At(bytes, at)
  {
  }

  /** A frame as either side writes it. */
  function WriteFrame(f: Frame): seq<u8>
    requires |f.payload| <= U32_MAX
  {
    Le32(f.command) + Le32(|f.payload|) + f.payload
  }

  lemma FrameRoundTrip(f: Frame, rest: seq<u8>)
    requires |f.payload| <= MAX_PAYLOAD_BYTES && Plausible(f.command, |f.payload|)
    ensures ReadFrame(WriteFrame(f) + rest) == Got(f, rest)
  {
    var bytes := WriteFrame(f) + rest;
    assert bytes[0..4] == Le32(f.command) && bytes[4..8] == Le32(|f.payload|);
    Read32(bytes, 0, f.command);
    Read32(bytes, 4, |f.payload|);
    assert bytes[8..8 + |f.payload|] == f.payload && bytes[8 + |f.payload|..] == rest;
  }

  // ---------------------------------------------------------------------------------------------
  // Requests
  // ---------------------------------------------------------------------------------------------

  /** Whether a payload or a line asks for the list of sensors. */
  type ListTest = seq<u8> -> bool

  predicate IsNewline(b: u8) {
    b == 0x0A
  }

  function ReadTextLine(bytes: seq<u8>): Next<seq<u8>> {
    TakeLine(IsNewline, bytes)
  }

  /** One entry for every list request, which says whether it came in a frame. */
  function FrameRequests(isList: ListTest, frames: seq<Frame>): seq<bool> {
    if frames == [] then []
    else (if isList(frames[0].payload) then [true] else []) + FrameRequests(isList, frames[1..])
  }

  function LineRequests(isList: ListTest, lines: seq<seq<u8>>): seq<bool> {
    if lines == [] then []
    else (if isList(lines[0]) then [false] else []) + LineRequests(isList, lines[1..])
  }

  /** The requests found so far, the bytes kept for a frame and the bytes kept for a line. */
  datatype Taken = Taken(requests: seq<bool>, pending: seq<u8>, linePending: seq<u8>)

  /** What is found in some bytes: frames first, and once they are implausible all the rest as lines. */
  function Take(isList: ListTest, pending: seq<u8>, linePending: seq<u8>): Taken {
    TakeFrom(isList, ReadItems(ReadFrame, pending), linePending)
  }

  function TakeFrom(isList: ListTest, frames: Reading<Frame>, linePending: seq<u8>): Taken {
    var requests := FrameRequests(isList, frames.items);
    if !frames.bad then Taken(requests, frames.rest, linePending)
    else
      var lines := ReadItems(ReadTextLine, linePending + frames.rest);
      Taken(requests + LineRequests(isList, lines.items), [], lines.rest)
  }

  class SensorBridge {
    const isList: ListTest
    var pending: seq<u8>
    var linePending: seq<u8>

    constructor (isList: ListTest)
      ensures pending == linePending == [] && this.isList == isList
    {
      this.isList := isList;
      pending, linePending := [], [];
    }

    /** Takes every request out of the pending bytes. */
    method TakeListRequests() returns (requests: seq<bool>)
      modifies this
      ensures Taken(requests, pending, linePending) == Take(isList, old(pending), old(linePending))
    {
      var implausible;
      requests, implausible := TakeFrames();
      if implausible {
        linePending := linePending + pending;
        pending := [];
        var more := TakeLines();
        requests := requests + more;
      }
    }

    method TakeFrames() returns (requests: seq<bool>, implausible: bool)
      modifies this`pending
      ensures var frames := ReadItems(ReadFrame, old(pending));
              requests == FrameRequests(isList, frames.items) && pending == frames.rest && implausible == frames.bad
    {
      requests := [];
      ghost var all := ReadItems(ReadFrame, pending);
      ghost var left := all;
      while true
        invariant left == ReadItems(ReadFrame, pending) && all.rest == left.rest && all.bad == left.bad
        invariant FrameRequests(isList, all.items) == requests + FrameRequests(isList, left.items)
        decreases |pending|
      {
        var next := ReadFrame(pending);
        if !next.Got? {
          return requests, next.Bad?;
        }
        ReadStep(ReadFrame, pending, next.item, next.rest);
        pending := next.rest;
        left := ReadItems(ReadFrame, pending);
        FrameStep(isList, next.item, left.items, requests);
        if isList(next.item.payload) {
          requests := requests + [true];
        }
      }
    }

    method TakeLines() returns (requests: seq<bool>)
      modifies this`linePending
      ensures var lines := ReadItems(ReadTextLine, old(linePending));
              requests == LineRequests(isList, lines.items) && linePending == lines.rest
    {
      requests := [];
      ghost var all := ReadItems(ReadTextLine, linePending);
      ghost var left := all;
      while true
        invariant left == ReadItems(ReadTextLine, linePending) && all.rest == left.rest
        invariant LineRequests(isList, all.items) == requests + LineRequests(isList, left.items)
        decreases |linePending|
      {
        var next := ReadTextLine(linePending);
        if next.Wait? {
          return;
        }
        ReadStep(ReadTextLine, linePending, next.item, next.rest);
        linePending := next.rest;
        left := ReadItems(ReadTextLine, linePending);
        LineStep(isList, next.item, left.items, requests);
        if isList(next.item) {
          requests := requests + [false];
        }
      }
    }
  }

  lemma FrameStep(isList: ListTest, f: Frame, later: seq<Frame>, requests: seq<bool>)
    ensures requests + FrameRequests(isList, [f] + later)
         == (if isList(f.payload) then requests + [true] else requests) + FrameRequests(isList, later)
  {
    assert ([f] + later)[1..] == later;
  }

  lemma LineStep(isList: ListTest, line: seq<u8>, later: seq<seq<u8>>, requests: seq<bool>)
    ensures requests + LineRequests(isList, [line] + later)
         == (if isList(line) then requests + [false] else requests) + LineRequests(isList, later)
  {
    assert ([line] + later)[1..] == later;
  }

  // ---------------------------------------------------------------------------------------------
  // Chunks
  // ---------------------------------------------------------------------------------------------

  /** The bridge over a list of chunks, from the bytes it has kept. */
  function TakeChunks(isList: ListTest, pending: seq<u8>, linePending: seq<u8>, chunks: seq<seq<u8>>): Taken
    decreases |chunks|
  {
    if chunks == [] then Taken([], pending, linePending)
    else
      var now := Take(isList, pending + chunks[0], linePending);
      Behind(now.requests, TakeChunks(isList, now.pending, now.linePending, chunks[1..]))
  }

  function Behind(requests: seq<bool>, later: Taken): Taken {
    later.(requests := requests + later.requests)
  }

  lemma {:induction false} RequestsInstalments(isList: ListTest, a: seq<Frame>, b: seq<Frame>)
    ensures FrameRequests(isList, a + b) == FrameRequests(isList, a) + FrameRequests(isList, b)
  {
    if a == [] {
      assert a + b == b;
    } else {
      assert (a + b)[1..] == a[1..] + b;
      RequestsInstalments(isList, a[1..], b);
      JoinedRequests(if isList(a[0].payload) then [true] else [],
                     FrameRequests(isList, a[1..]), FrameRequests(isList, b));
    }
  }

  /** Whether the bridge finds the same and keeps the same however a stream is cut into reads. */
  ghost predicate SameHoweverCut(isList: ListTest, stream: seq<u8>) {
    forall chunks: seq<seq<u8>> :: Flatten(chunks) == stream && NoneEmpty(chunks) ==>
      TakeChunks(isList, [], [], chunks) == Take(isList, stream, [])
  }

  /** No byte follows the first implausible header, if there is one. */
  predicate HeaderIsLast(r: Reading<Frame>) {
    r.bad ==> |r.rest| == 8
  }

  lemma {:induction false} BadNeedsHeader(bytes: seq<u8>)
    ensures ReadItems(ReadFrame, bytes).bad ==> |ReadItems(ReadFrame, bytes).rest| >= 8
    decreases |bytes|
  {
    var next := ReadFrame(bytes);
    if next.Got? {
      BadNeedsHeader(next.rest);
    }
  }

  /** Frames are found whatever the cuts, as long as no bytes are left to be read as lines. */
  lemma {:induction false} ChunksAgree(
    isList: ListTest, residue: seq<u8>, linePending: seq<u8>, chunks: seq<seq<u8>>)
    requires ReadItems(ReadFrame, residue) == Reading([], residue, false) && NoneEmpty(chunks)
    requires HeaderIsLast(ReadItems(ReadFrame, residue + Flatten(chunks)))
    ensures TakeChunks(isList, residue, linePending, chunks) == Take(isList, residue + Flatten(chunks), linePending)
    decreases |chunks|
  {
    if chunks == [] {
      assert residue + Flatten(chunks) == residue;
    } else {
      var bytes, tail := residue + chunks[0], Flatten(chunks[1..]);
      FramesAreExtensible();
      TwoInstalments(ReadFrame, bytes, tail);
      Joined(residue, chunks[0], tail);
      var now := ReadItems(ReadFrame, bytes);
      if now.bad {
        BadNeedsHeader(bytes);
        ChunksDeliver(chunks[1..]);
        assert bytes + tail == bytes;
        LastChunk(Take(isList, bytes, linePending));
      } else {
        NothingLeftToRead(ReadFrame, bytes);
        ChunksAgree(isList, now.rest, linePending, chunks[1..]);
        TakeAfter(isList, now, tail, ReadItems(ReadFrame, now.rest + tail), linePending);
      }
    }
  }

  lemma {:induction false} ChunksDeliver(chunks: seq<seq<u8>>)
    requires NoneEmpty(chunks)
    ensures |Flatten(chunks)| >= |chunks|
  {
    if chunks != [] {
      ChunksDeliver(chunks[1..]);
    }
  }

  lemma LastChunk(t: Taken)
    ensures Behind(t.requests, Taken([], t.pending, t.linePending)) == t
  {
  }

  lemma TakeAfter(isList: ListTest, first: Reading<Frame>, more: seq<u8>, second: Reading<Frame>, linePending: seq<u8>)
    requires !first.bad
    ensures TakeFrom(isList, Resumed(first, more, second), linePending)
         == Behind(FrameRequests(isList, first.items), TakeFrom(isList, second, linePending))
  {
    RequestsInstalments(isList, first.items, second.items);
    if second.bad {
      var lines := LineRequests(isList, ReadItems(ReadTextLine, linePending + second.rest).items);
      JoinedRequests(FrameRequests(isList, first.items), FrameRequests(isList, second.items), lines);
    }
  }

  lemma JoinedRequests(a: seq<bool>, b: seq<bool>, c: seq<bool>)
    ensures (a + b) + c == a + (b + c)
  {
  }

  /** A byte that completes a frame leaves nothing over; one that completes a header leaves the header. */
  lemma OneByteMore(bytes: seq<u8>, b: u8)
    requires ReadFrame(bytes).Wait?
    ensures HeaderIsLast(ReadItems(ReadFrame, bytes + [b]))
  {
    if |bytes| >= 8 {
      SameWord(bytes, [b], 0);
      SameWord(bytes, [b], 4);
    }
  }

  /** If bytes follow the implausible header, it was already there one byte earlier. */
  lemma BadOneByteEarlier(a: seq<u8>, b: u8)
    requires !HeaderIsLast(ReadItems(ReadFrame, a + [b]))
    ensures ReadItems(ReadFrame, a).bad
  {
    FramesAreExtensible();
    TwoInstalments(ReadFrame, a, [b]);
    var first := ReadItems(ReadFrame, a);
    if !first.bad {
      NothingLeftToRead(ReadFrame, a);
      OneByteMore(first.rest, b);
    }
  }

  /**
   The bridge ignores how the stream is cut exactly when no byte follows the first implausible header:
   later bytes are read as lines if they arrive together with it and as a new header if they do not.
   */
  lemma SameHoweverCutExactly(isList: ListTest, stream: seq<u8>)
    ensures SameHoweverCut(isList, stream) <==> HeaderIsLast(ReadItems(ReadFrame, stream))
  {
    assert [] + stream == stream;
    if HeaderIsLast(ReadItems(ReadFrame, stream)) {
      forall chunks: seq<seq<u8>> | Flatten(chunks) == stream && NoneEmpty(chunks)
        ensures TakeChunks(isList, [], [], chunks) == Take(isList, stream, [])
      {
        ChunksAgree(isList, [], [], chunks);
      }
    } else {
      LastByteApart(isList, stream);
    }
  }

  lemma LastByteApart(isList: ListTest, stream: seq<u8>)
    requires !HeaderIsLast(ReadItems(ReadFrame, stream))
    ensures !SameHoweverCut(isList, stream)
  {
    BadNeedsHeader(stream);
    var front, last := stream[..|stream| - 1], stream[|stream| - 1];
    assert front + [last] == stream;
    BadOneByteEarlier(front, last);
    FlattenTwo(front, [last]);
    TwoChunksDiffer(isList, stream, front, last);
  }

  lemma TwoChunksDiffer(isList: ListTest, stream: seq<u8>, front: seq<u8>, last: u8)
    requires ReadItems(ReadFrame, front).bad && ReadItems(ReadFrame, stream).bad
    requires Flatten([front, [last]]) == stream && front != []
    ensures !SameHoweverCut(isList, stream)
  {
    KeptApart(isList, front, last);
    LinesKeepNothing(isList, stream);
    var chunks := [front, [last]];
    assert NoneEmpty(chunks) && TakeChunks(isList, [], [], chunks) != Take(isList, stream, []);
  }

  lemma LinesKeepNothing(isList: ListTest, stream: seq<u8>)
    requires ReadItems(ReadFrame, stream).bad
    ensures Take(isList, stream, []).pending == []
  {
  }

  lemma KeptApart(isList: ListTest, front: seq<u8>, last: u8)
    requires ReadItems(ReadFrame, front).bad
    ensures TakeChunks(isList, [], [], [front, [last]]).pending == [last]
  {
    assert [front, [last]][1..] == [[last]] && [] + front == front && [] + [last] == [last];
    var now := Take(isList, front, []);
    assert TakeChunks(isList, now.pending, now.linePending, [[last]]).pending == [last];
  }

  // ---------------------------------------------------------------------------------------------
  // What the two sides write
  // ---------------------------------------------------------------------------------------------

  predicate Sendable(f: Frame) {
    |f.payload| <= U32_MAX && Plausible(f.command, |f.payload|)
  }

  lemma FramesRoundTrip(frames: seq<Frame>)
    requires forall f <- frames :: Sendable(f) && WriteFrame.requires(f)
    ensures ReadItems(ReadFrame, WriteItems(WriteFrame, frames)) == Reading(frames, [], false)
  {
    forall f <- frames, rest: seq<u8> ensures ReadFrame(WriteFrame(f) + rest) == Got(f, rest) {
      FrameRoundTrip(f, rest);
    }
    ItemsRoundTrip(ReadFrame, WriteFrame, frames);
  }

  /** However the frames of a guest are cut into reads, each list request among them is found, in order. */
  lemma FramesAreFound(isList: ListTest, frames: seq<Frame>, chunks: seq<seq<u8>>)
    requires forall f <- frames :: Sendable(f) && WriteFrame.requires(f)
    requires NoneEmpty(chunks) && Flatten(chunks) == WriteItems(WriteFrame, frames)
    ensures TakeChunks(isList, [], [], chunks) == Taken(FrameRequests(isList, frames), [], [])
  {
    FramesRoundTrip(frames);
    ReadFramesAreFound(isList, frames, chunks);
  }

  lemma ReadFramesAreFound(isList: ListTest, frames: seq<Frame>, chunks: seq<seq<u8>>)
    requires NoneEmpty(chunks) && ReadItems(ReadFrame, Flatten(chunks)) == Reading(frames, [], false)
    ensures TakeChunks(isList, [], [], chunks) == Taken(FrameRequests(isList, frames), [], [])
  {
    assert [] + Flatten(chunks) == Flatten(chunks);
    ChunksAgree(isList, [], [], chunks);
  }

  /** What the host sends: a frame with the host bit in its command, or the bare payload. */
  function HostFrame(payload: seq<u8>): Frame {
    Frame(HOST_BIT + UPDATE_HAL_COMMAND, payload)
  }

  /** The payload limit of the reader is exactly what decides whether a host frame is read back. */
  lemma HostFrameReadsBack(payload: seq<u8>, rest: seq<u8>)
    requires |payload| <= U32_MAX
    ensures ReadFrame(WriteFrame(HostFrame(payload)) + rest)
         == if |payload| <= MAX_PAYLOAD_BYTES then Got(HostFrame(payload), rest) else Bad
  {
    if |payload| <= MAX_PAYLOAD_BYTES {
      FrameRoundTrip(HostFrame(payload), rest);
    } else {
      var bytes := WriteFrame(HostFrame(payload)) + rest;
      assert bytes[4..8] == Le32(|payload|);
      Read32(bytes, 4, |payload|);
    }
  }

  /** The bytes sent for a payload; None when its length does not fit the header. */
  method WritePayload(payload: seq<u8>, framed: bool) returns (sent: Option<seq<u8>>)
    ensures sent == if !framed then Some(payload)
                    else if |payload| <= U32_MAX then Some(WriteFrame(HostFrame(payload))) else None
  {
    var bytes: seq<u8> := [];
    if framed {
      if |payload| > U32_MAX {
        return None;
      }
      bytes := Le32(HOST_BIT + UPDATE_HAL_COMMAND);
      bytes := bytes + Le32(|payload|);
    }
    sent := Some(bytes + payload);
    assert [] + payload == payload;
  }
}

/**
 What the sensor bridge reports, byte by byte: which headers it believes, and that every list request is
 reported once, with true for a frame and false for a line.
 */
module SensorRequests {
  import opened Wrappers
  import opened Bytes
  import opened Streams
  import opened Lines
  import opened SensorFrames

  // ---------------------------------------------------------------------------------------------
  // Headers
  // ---------------------------------------------------------------------------------------------

  function Number(b0: u8, b1: u8, b2: u8, b3: u8): nat {
    b0 as int + 0x100 * b1 as int + 0x1_0000 * b2 as int + 0x100_0000 * b3 as int
  }

  /** A header: the command fits 16 bits apart from the highest bit of all, and the payload 1 MiB. */
  predicate Believed(c2: u8, c3: u8, size: nat) {
    c2 == 0 && (c3 == 0 || c3 == 0x80) && size <= 1_048_576
  }

  lemma WordAt(bytes: seq<u8>, at: nat)
    requires at + 4 <= |bytes|
    ensures U32At(bytes, at) == Number(bytes[at], bytes[at + 1], bytes[at + 2], bytes[at + 3])
  {
  }

  lemma CommandFits(c0: u8, c1: u8, c2: u8, c3: u8)
    ensures Number(c0, c1, c2, c3) % 0x8000_0000 <= 0xFFFF <==> c2 == 0 && (c3 == 0 || c3 == 0x80)
  {
  }

  /** A believed header takes as many bytes with it as it says; an implausible one is rejected. */
  lemma HeadersAreBelieved(
    c0: u8, c1: u8, c2: u8, c3: u8, s0: u8, s1: u8, s2: u8, s3: u8, payload: seq<u8>, rest: seq<u8>)
    requires |payload| == Number(s0, s1, s2, s3)
    ensures var bytes := [c0, c1, c2, c3, s0, s1, s2, s3] + payload + rest;
            ReadFrame(bytes) == if Believed(c2, c3, |payload|)
                                then Got(Frame(Number(c0, c1, c2, c3) as u32, payload), rest) else Bad
  {
    var bytes := [c0, c1, c2, c3, s0, s1, s2, s3] + payload + rest;
    WordAt(bytes, 0);
    WordAt(bytes, 4);
    CommandFits(c0, c1, c2, c3);
    assert bytes[8..8 + |payload|] == payload && bytes[8 + |payload|..] == rest;
  }

  // ---------------------------------------------------------------------------------------------
  // Requests
  // ---------------------------------------------------------------------------------------------

  /** Where the list requests stand in a sequence of payloads or lines. */
  function Places(isList: ListTest, texts: seq<seq<u8>>): set<int> {
    set i | 0 <= i < |texts| && isList(texts[i])
  }

  ghost predicate AllAre(requests: seq<bool>, flag: bool) {
    forall r <- requests :: r == flag
  }

  lemma LastPlace(isList: ListTest, texts: seq<seq<u8>>, text: seq<u8>)
    ensures |Places(isList, texts + [text])| == |Places(isList, texts)| + (if isList(text) then 1 else 0)
  {
    var last: set<int> := if isList(text) then {|texts|} else {};
    var all := texts + [text];
    assert all[|texts|] == text && forall i :: 0 <= i < |texts| ==> all[i] == texts[i];
    assert Places(isList, all) == Places(isList, texts) + last;
    assert Places(isList, texts) !! last;
  }

  function Payloads(frames: seq<Frame>): (payloads: seq<seq<u8>>) {
    seq(|frames|, i requires 0 <= i < |frames| => frames[i].payload)
  }

  lemma {:induction false} LastFrame(isList: ListTest, frames: seq<Frame>, f: Frame)
    ensures FrameRequests(isList, frames + [f])
         == FrameRequests(isList, frames) + if isList(f.payload) then [true] else []
    decreases |frames|
  {
    if frames != [] {
      LastFrame(isList, frames[1..], f);
      assert (frames + [f])[1..] == frames[1..] + [f];
    }
  }

  lemma {:induction false} LastLine(isList: ListTest, lines: seq<seq<u8>>, line: seq<u8>)
    ensures LineRequests(isList, lines + [line])
         == LineRequests(isList, lines) + if isList(line) then [false] else []
    decreases |lines|
  {
    if lines != [] {
      LastLine(isList, lines[1..], line);
      assert (lines + [line])[1..] == lines[1..] + [line];
    }
  }

  lemma {:induction false} FrameRequestsCount(isList: ListTest, frames: seq<Frame>)
    ensures var requests := FrameRequests(isList, frames);
            AllAre(requests, true) && |requests| == |Places(isList, Payloads(frames))|
    decreases |frames|
  {
    if frames == [] {
      assert Places(isList, Payloads(frames)) == {};
    } else {
      var front, last := frames[..|frames| - 1], frames[|frames| - 1];
      assert frames == front + [last];
      FrameRequestsCount(isList, front);
      LastFrame(isList, front, last);
      LastPlace(isList, Payloads(front), last.payload);
      assert Payloads(frames) == Payloads(front) + [last.payload];
    }
  }

  lemma {:induction false} LineRequestsCount(isList: ListTest, lines: seq<seq<u8>>)
    ensures var requests := LineRequests(isList, lines);
            AllAre(requests, false) && |requests| == |Places(isList, lines)|
    decreases |lines|
  {
    if lines == [] {
      assert Places(isList, lines) == {};
    } else {
      var front, last := lines[..|lines| - 1], lines[|lines| - 1];
      assert lines == front + [last];
      LineRequestsCount(isList, front);
      LastLine(isList, front, last);
      LastPlace(isList, front, last);
    }
  }

  /** However framed requests are cut into reads, there is one true for each list request and nothing else. */
  lemma FramedRequestsAreCounted(isList: ListTest, frames: seq<Frame>, chunks: seq<seq<u8>>)
    requires forall f <- frames :: f.command % 0x8000_0000 <= 0xFFFF && |f.payload| <= 1_048_576
    requires forall f <- frames :: WriteFrame.requires(f)
    requires NoneEmpty(chunks) && Flatten(chunks) == WriteItems(WriteFrame, frames)
    ensures var taken := TakeChunks(isList, [], [], chunks);
            && AllAre(taken.requests, true) && |taken.requests| == |Places(isList, Payloads(frames))|
            && taken.pending == taken.linePending == []
  {
    FramesAreFound(isList, frames, chunks);
    FrameRequestsCount(isList, frames);
  }

  /** Behind an implausible header there is one false for each line that is a list request. */
  lemma LinesAreCounted(isList: ListTest, lines: seq<seq<u8>>, tail: seq<u8>)
    requires forall line <- lines :: |line| > 0 && line[|line| - 1] == 0x0A && 0x0A !in line[..|line| - 1]
    requires 0x0A !in tail
    requires var stream := Flatten(lines) + tail;
             |stream| >= 8 && !Believed(stream[2], stream[3], Number(stream[4], stream[5], stream[6], stream[7]))
    ensures var taken := Take(isList, Flatten(lines) + tail, []);
            && AllAre(taken.requests, false) && |taken.requests| == |Places(isList, lines)|
            && taken.pending == [] && taken.linePending == tail
  {
    var stream := Flatten(lines) + tail;
    WordAt(stream, 0);
    WordAt(stream, 4);
    CommandFits(stream[0], stream[1], stream[2], stream[3]);
    assert ReadItems(ReadFrame, stream) == Reading([], stream, true);
    LinesAreRead(ReadTextLine, IsNewline, lines, tail);
    assert [] + stream == stream;
    LineRequestsCount(isList, lines);
  }

  /** The bytes of a host frame: command 2 with the highest bit set, the length, and the payload. */
  lemma HostFrameBytes(payload: seq<u8>, s0: u8, s1: u8, s2: u8, s3: u8)
    requires |payload| == Number(s0, s1, s2, s3)
    ensures WriteFrame(HostFrame(payload)) == [0x02, 0x00, 0x00, 0x80, s0, s1, s2, s3] + payload
  {
    assert Le32(HOST_BIT + UPDATE_HAL_COMMAND) == [0x02, 0x00, 0x00, 0x80];
    NumberBytes(s0, s1, s2, s3, |payload|);
    assert [0x02, 0x00, 0x00, 0x80] + [s0, s1, s2, s3] == [0x02, 0x00, 0x00, 0x80, s0, s1, s2, s3];
  }

  lemma NumberBytes(s0: u8, s1: u8, s2: u8, s3: u8, n: u32)
    requires n as int == Number(s0, s1, s2, s3)
    ensures Le32(n) == [s0, s1, s2, s3]
  {
    assert n / 0x100 == s1 as int + 0x100 * s2 as int + 0x1_0000 * s3 as int;
    assert n / 0x100 / 0x100 == s2 as int + 0x100 * s3 as int;
  }
}

/** Bytes that end a line, and taking the first line off a byte string. */
module Lines {
  import opened Wrappers
  import opened Bytes
  import opened Streams

  type End = u8 -> bool

  function FirstEnd(end: End, bytes: seq<u8>, from: nat): (r: Option<nat>)
    ensures r.Some? ==> from <= r.value < |bytes| && end(bytes[r.value])
    decreases |bytes| - from
  {
    if from >= |bytes| then None
    else if end(bytes[from]) then Some(from)
    else FirstEnd(end, bytes, from + 1)
  }

  ghost predicate NoEnd(end: End, bytes: seq<u8>) {
    forall i :: 0 <= i < |bytes| ==> !end(bytes[i])
  }

  lemma {:induction false} FirstEndIsFirst(end: End, bytes: seq<u8>, from: nat)
    ensures var r := FirstEnd(end, bytes, from);
            forall i :: from <= i < (if r.Some? then r.value else |bytes|) ==> !end(bytes[i])
    decreases |bytes| - from
  {
    if from < |bytes| && !end(bytes[from]) {
      FirstEndIsFirst(end, bytes, from + 1);
    }
  }

  /** The first end is where no end stands before it. */
  lemma FirstEndUnique(end: End, bytes: seq<u8>, from: nat, at: nat)
    requires from <= at < |bytes| && end(bytes[at]) && forall i :: from <= i < at ==> !end(bytes[i])
    ensures FirstEnd(end, bytes, from) == Some(at)
  {
    FirstEndIsFirst(end, bytes, from);
  }

  lemma FirstEndInSuffix(end: End, bytes: seq<u8>, from: nat)
    requires from <= |bytes|
    ensures match FirstEnd(end, bytes, from)
            case None => FirstEnd(end, bytes[from..], 0) == None
            case Some(at) => FirstEnd(end, bytes[from..], 0) == Some(at - from)
  {
    FirstEndIsFirst(end, bytes, from);
    forall i | 0 <= i < |bytes[from..]| ensures bytes[from..][i] == bytes[from + i] {
    }
    if FirstEnd(end, bytes, from).Some? {
      FirstEndUnique(end, bytes[from..], 0, FirstEnd(end, bytes, from).value - from);
    }
  }

  /** The first line with the byte that ends it. */
  function TakeLine(end: End, bytes: seq<u8>): (n: Next<seq<u8>>)
    ensures n.Got? ==> |n.item| > 0 && n.item + n.rest == bytes
  {
    match FirstEnd(end, bytes, 0)
    case None => Wait
    case Some(at) => Got(bytes[..at + 1], bytes[at + 1..])
  }

  lemma TakeLineExtends(end: End, bytes: seq<u8>, more: seq<u8>)
    requires TakeLine(end, bytes).Got?
    ensures TakeLine(end, bytes + more) == Got(TakeLine(end, bytes).item, TakeLine(end, bytes).rest + more)
  {
    var at := FirstEnd(end, bytes, 0).value;
    FirstEndIsFirst(end, bytes, 0);
    FirstEndUnique(end, bytes + more, 0, at);
    assert (bytes + more)[..at + 1] == bytes[..at + 1] && (bytes + more)[at + 1..] == bytes[at + 1..] + more;
  }

  /** A line without an end in front of its last byte. */
  ghost predicate IsLine(end: End, line: seq<u8>) {
    |line| > 0 && end(line[|line| - 1]) && NoEnd(end, line[..|line| - 1])
  }

  lemma FirstLine(end: End, line: seq<u8>, rest: seq<u8>)
    requires IsLine(end, line)
    ensures TakeLine(end, line + rest) == Got(line, rest)
  {
    var bytes := line + rest;
    forall i | 0 <= i < |line| - 1 ensures !end(bytes[i]) {
      assert bytes[i] == line[..|line| - 1][i];
    }
    FirstEndUnique(end, bytes, 0, |line| - 1);
    assert bytes[..|line|] == line && bytes[|line|..] == rest;
  }

  lemma NoLine(end: End, tail: seq<u8>)
    requires NoEnd(end, tail)
    ensures TakeLine(end, tail) == Wait
  {
    assert FirstEnd(end, tail, 0).None?;
  }

  /** Lines put one after the other are read as themselves, and what follows the last of them is left. */
  lemma {:induction false} LinesAreRead(read: Reader<seq<u8>>, end: End, lines: seq<seq<u8>>, tail: seq<u8>)
    requires forall bytes :: read(bytes) == TakeLine(end, bytes)
    requires (forall line <- lines :: IsLine(end, line)) && NoEnd(end, tail)
    ensures ReadItems(read, Flatten(lines) + tail) == Reading(lines, tail, false)
    decreases |lines|
  {
    if lines == [] {
      NoLine(end, tail);
      assert Flatten(lines) + tail == tail;
    } else {
      var rest := Flatten(lines[1..]) + tail;
      assert Flatten(lines) + tail == lines[0] + rest;
      FirstLine(end, lines[0], rest);
      LinesAreRead(read, end, lines[1..], tail);
      ReadStep(read, lines[0] + rest, lines[0], rest);
      assert [lines[0]] + lines[1..] == lines;
    }
  }
}

/**
 The modem channel of the peripheral adapter: AT commands are separated by carriage returns and line
 feeds, and everything up to the last separator is answered.
 */
module ModemLines {
  import opened Wrappers
  import opened Bytes
  import opened Streams
  import opened Lines

  const MAX_GUEST_MESSAGE_BYTES := 64 * 1024

  predicate IsDelimiter(b: u8) {
    b == 0x0D || b == 0x0A
  }

  function ReadCommand(bytes: seq<u8>): Next<seq<u8>> {
    TakeLine(IsDelimiter, bytes)
  }

  lemma CommandsAreExtensible()
    ensures Extensible(ReadCommand)
  {
    forall bytes, more ensures ExtendsAt(ReadCommand, bytes, more) {
      if ReadCommand(bytes).Got? {
        TakeLineExtends(IsDelimiter, bytes, more);
      }
    }
  }

  /** The table of replies to AT commands, which is not part of this model. */
  type Replies = seq<u8> -> seq<u8>

  /** Empty commands, as between a carriage return and a line feed, are skipped. */
  function Answer(replies: Replies, command: seq<u8>): seq<u8> {
    if command == [] then [] else replies(command)
  }

  /** The modem as a machine over lines; its only state is the reply table. */
  function Answering(replies: Replies, line: seq<u8>): Step<Replies> {
    Go(replies, Answer(replies, if line == [] then [] else line[..|line| - 1]))
  }

  /** The modem never refuses a line, and no byte string is malformed. */
  lemma {:induction false} NeverRefuses(replies: Replies, lines: seq<seq<u8>>)
    ensures !RunItems(Answering, replies, lines).refused && RunItems(Answering, replies, lines).state == replies
    decreases |lines|
  {
    if lines != [] {
      NeverRefuses(replies, lines[1..]);
    }
  }

  /** All that follows the last separator of a stream, or the whole stream if it has none. */
  ghost predicate FollowsLastDelimiter(stream: seq<u8>, residue: seq<u8>) {
    && NoEnd(IsDelimiter, residue) && |residue| <= |stream| && stream[|stream| - |residue|..] == residue
    && (|residue| < |stream| ==> IsDelimiter(stream[|stream| - |residue| - 1]))
  }

  lemma {:induction false} ResidueFollowsLastDelimiter(bytes: seq<u8>)
    ensures !ReadItems(ReadCommand, bytes).bad
    ensures FollowsLastDelimiter(bytes, ReadItems(ReadCommand, bytes).rest)
    decreases |bytes|
  {
    match ReadCommand(bytes)
    case Wait => FirstEndIsFirst(IsDelimiter, bytes, 0);
    case Got(line, rest) =>
      ResidueFollowsLastDelimiter(rest);
      LineBefore(line, rest, ReadItems(ReadCommand, rest).rest);
  }

  lemma LineBefore(line: seq<u8>, rest: seq<u8>, residue: seq<u8>)
    requires |line| > 0 && IsDelimiter(line[|line| - 1]) && FollowsLastDelimiter(rest, residue)
    ensures FollowsLastDelimiter(line + rest, residue)
  {
    assert (line + rest)[|line|..] == rest;
  }

  /** Bytes without a separator after the last one are all that is left over. */
  lemma NothingToTake(bytes: seq<u8>)
    requires NoEnd(IsDelimiter, bytes)
    ensures ReadItems(ReadCommand, bytes) == Reading([], bytes, false)
  {
  }

  /** The answers to the complete lines of a byte string from one position on. */
  function RespondFrom(replies: Replies, bytes: seq<u8>, from: nat): seq<u8>
    requires from <= |bytes|
    decreases |bytes| - from
  {
    match FirstEnd(IsDelimiter, bytes, from)
    case None => []
    case Some(at) => Answer(replies, bytes[from..at]) + RespondFrom(replies, bytes, at + 1)
  }

  lemma {:induction false} RespondIsDigest(replies: Replies, bytes: seq<u8>, from: nat)
    requires from <= |bytes|
    ensures Digest(ReadCommand, Answering, replies, bytes[from..])
         == Service(replies, ReadItems(ReadCommand, bytes[from..]).rest, RespondFrom(replies, bytes, from), None)
    decreases |bytes| - from
  {
    FirstEndInSuffix(IsDelimiter, bytes, from);
    match FirstEnd(IsDelimiter, bytes, from)
    case None =>
    case Some(at) =>
      RespondIsDigest(replies, bytes, at + 1);
      LineThenRest(replies, bytes, from, at, RespondFrom(replies, bytes, at + 1));
  }

  lemma LineThenRest(replies: Replies, bytes: seq<u8>, start: nat, at: nat, later: seq<u8>)
    requires start <= at < |bytes| && FirstEnd(IsDelimiter, bytes[start..], 0) == Some(at - start)
    requires Digest(ReadCommand, Answering, replies, bytes[at + 1..])
          == Service(replies, ReadItems(ReadCommand, bytes[at + 1..]).rest, later, None)
    ensures Digest(ReadCommand, Answering, replies, bytes[start..])
         == Service(replies, ReadItems(ReadCommand, bytes[start..]).rest,
                    Answer(replies, bytes[start..at]) + later, None)
  {
    var line, rest := bytes[start..at + 1], bytes[at + 1..];
    assert bytes[start..][..at - start + 1] == line && bytes[start..][at - start + 1..] == rest;
    assert line[..|line| - 1] == bytes[start..at];
    assert ReadItems(ReadCommand, bytes[start..]).items[1..] == ReadItems(ReadCommand, rest).items;
  }

  /** The answers to the pieces between separators; the first one starts at `start` and is read up to `at`. */
  function AnswerPieces(replies: Replies, bytes: seq<u8>, start: nat, at: nat): seq<u8>
    requires start <= at <= |bytes|
    decreases |bytes| - at
  {
    if at == |bytes| then Answer(replies, bytes[start..])
    else if IsDelimiter(bytes[at]) then Answer(replies, bytes[start..at]) + AnswerPieces(replies, bytes, at + 1, at + 1)
    else AnswerPieces(replies, bytes, start, at + 1)
  }

  /** Splitting whole lines at their separators gives what reading them one by one gives. */
  lemma {:induction false} PiecesAreLines(replies: Replies, bytes: seq<u8>, start: nat, at: nat)
    requires start <= at <= |bytes| && (at == |bytes| ==> start == at)
    requires at < |bytes| ==> IsDelimiter(bytes[|bytes| - 1])
    requires FirstEnd(IsDelimiter, bytes, start) == FirstEnd(IsDelimiter, bytes, at)
    ensures RespondFrom(replies, bytes, start) == AnswerPieces(replies, bytes, start, at)
    decreases |bytes| - at
  {
    if at == |bytes| {
      assert bytes[start..] == [];
    } else if IsDelimiter(bytes[at]) {
      PiecesAreLines(replies, bytes, at + 1, at + 1);
    } else {
      PiecesAreLines(replies, bytes, start, at + 1);
    }
  }

  /** Splits complete commands at their separators and answers those that are not empty. */
  method AnswerEach(replies: Replies, complete: seq<u8>) returns (output: seq<u8>)
    requires complete != [] ==> IsDelimiter(complete[|complete| - 1])
    ensures Digest(ReadCommand, Answering, replies, complete) == Service(replies, [], output, None)
  {
    output := [];
    var start := 0;
    for i := 0 to |complete|
      invariant start <= i
      invariant AnswerPieces(replies, complete, 0, 0) == output + AnswerPieces(replies, complete, start, i)
    {
      if IsDelimiter(complete[i]) {
        Joined(output, Answer(replies, complete[start..i]), AnswerPieces(replies, complete, i + 1, i + 1));
        output := output + Answer(replies, complete[start..i]);
        start := i + 1;
      }
    }
    output := output + Answer(replies, complete[start..]);
    assert complete[0..] == complete;
    PiecesAreLines(replies, complete, 0, 0);
    ResidueFollowsLastDelimiter(complete);
    RespondIsDigest(replies, complete, 0);
  }

  class ModemChannel {
    var pending: seq<u8>
    const replies: Replies

    constructor (replies: Replies)
      ensures pending == [] && this.replies == replies
    {
      pending := [];
      this.replies := replies;
    }

    /** Answers every command up to the last separator and keeps the rest. */
    method TakeResponses() returns (output: seq<u8>)
      modifies this`pending
      ensures var o := Digest(ReadCommand, Answering, replies, old(pending));
              output == o.output && pending == o.residue
    {
      var end := |pending|;
      while end > 0 && !IsDelimiter(pending[end - 1])
        invariant 0 <= end <= |pending| && NoEnd(IsDelimiter, pending[end..])
      {
        end := end - 1;
      }
      var complete := pending[..end];
      output := AnswerEach(replies, complete);
      assert pending == complete + pending[end..];
      pending := pending[end..];
      CommandsAreExtensible();
      DigestInstalments(ReadCommand, Answering, replies, complete, pending);
      assert [] + pending == pending;
      NothingToTake(pending);
    }

    /** One payload of the guest. */
    method Receive(chunk: seq<u8>) returns (output: seq<u8>, failure: Option<Failure>)
      modifies this`pending
      ensures var o := Streams.Receive(ReadCommand, Answering, MAX_GUEST_MESSAGE_BYTES, replies, old(pending), chunk);
              failure == o.failure && (failure.None? ==> output == o.output && pending == o.residue)
    {
      output, failure := [], None;
      pending := pending + chunk;
      if |pending| > MAX_GUEST_MESSAGE_BYTES {
        return [], Some(TooLong);
      }
      ModemNeverFails(replies, pending);
      output := TakeResponses();
    }
  }

  /**
   However the guest's bytes are cut into payloads, the replies are those to the uncut stream and
   exactly the bytes after the last separator are kept; if the limit stops the channel, what it has
   sent by then is a front part of those replies.
   */
  lemma ModemIgnoresChunking(replies: Replies, chunks: seq<seq<u8>>)
    ensures var served := Serve(ReadCommand, Answering, MAX_GUEST_MESSAGE_BYTES, replies, [], chunks);
            var whole := Digest(ReadCommand, Answering, replies, Flatten(chunks));
            && FollowsLastDelimiter(Flatten(chunks), whole.residue)
            && (served == whole || (served.failure == Some(TooLong) && Prefix(served.output, whole.output)))
  {
    CommandsAreExtensible();
    ServeAgrees(ReadCommand, Answering, MAX_GUEST_MESSAGE_BYTES, replies, [], chunks);
    var stream := Flatten(chunks);
    assert [] + stream == stream;
    ModemNeverFails(replies, stream);
  }

  lemma ModemNeverFails(replies: Replies, stream: seq<u8>)
    ensures Digest(ReadCommand, Answering, replies, stream).failure.None?
    ensures FollowsLastDelimiter(stream, Digest(ReadCommand, Answering, replies, stream).residue)
  {
    ResidueFollowsLastDelimiter(stream);
    NeverRefuses(replies, ReadItems(ReadCommand, stream).items);
  }

  // ---------------------------------------------------------------------------------------------
  // Commands, byte by byte
  // ---------------------------------------------------------------------------------------------

  /** A command and the byte that ends it. */
  datatype Ended = Ended(command: seq<u8>, end: u8)

  /** No carriage return and no line feed. */
  ghost predicate Unbroken(bytes: seq<u8>) {
    forall b <- bytes :: b != 13 && b != 10
  }

  lemma UnbrokenHasNoEnd(bytes: seq<u8>)
    requires Unbroken(bytes)
    ensures NoEnd(IsDelimiter, bytes)
  {
    forall i | 0 <= i < |bytes| ensures !IsDelimiter(bytes[i]) {
      assert bytes[i] in bytes;
    }
  }

  ghost predicate AreEnded(commands: seq<Ended>) {
    forall c <- commands :: Unbroken(c.command) && (c.end == 13 || c.end == 10)
  }

  function Written(commands: seq<Ended>): seq<seq<u8>> {
    if commands == [] then [] else [commands[0].command + [commands[0].end]] + Written(commands[1..])
  }

  /** The replies to the commands that are not empty, one after the other. */
  function Replied(replies: Replies, commands: seq<Ended>): seq<u8> {
    if commands == [] then []
    else (if commands[0].command == [] then [] else replies(commands[0].command)) + Replied(replies, commands[1..])
  }

  lemma {:induction false} WrittenAreLines(commands: seq<Ended>)
    requires AreEnded(commands)
    ensures forall line <- Written(commands) :: IsLine(IsDelimiter, line)
    decreases |commands|
  {
    if commands != [] {
      var c := commands[0];
      var line := c.command + [c.end];
      assert line[..|line| - 1] == c.command;
      UnbrokenHasNoEnd(c.command);
      WrittenAreLines(commands[1..]);
    }
  }

  lemma {:induction false} RepliesAreSent(replies: Replies, commands: seq<Ended>)
    ensures RunItems(Answering, replies, Written(commands)).output == Replied(replies, commands)
    decreases |commands|
  {
    if commands != [] {
      var c := commands[0];
      var line := c.command + [c.end];
      assert line[..|line| - 1] == c.command;
      assert Written(commands)[1..] == Written(commands[1..]);
      RepliesAreSent(replies, commands[1..]);
    }
  }

  /**
   Commands that end with a carriage return or a line feed, cut into payloads in any way: each one that is not
   empty is replied to, in order, and what follows the last end is kept.
   */
  lemma CommandsAreAnswered(replies: Replies, commands: seq<Ended>, tail: seq<u8>, chunks: seq<seq<u8>>)
    requires AreEnded(commands) && Unbroken(tail) && Flatten(chunks) == Flatten(Written(commands)) + tail
    ensures var served := Serve(ReadCommand, Answering, 65536, replies, [], chunks);
            || served == Service(replies, tail, Replied(replies, commands), None)
            || (served.failure == Some(TooLong) && Prefix(served.output, Replied(replies, commands)))
  {
    WrittenAreLines(commands);
    UnbrokenHasNoEnd(tail);
    LinesAreRead(ReadCommand, IsDelimiter, Written(commands), tail);
    RepliesAreSent(replies, commands);
    NeverRefuses(replies, Written(commands));
    ModemIgnoresChunking(replies, chunks);
  }

  /** More than 64 KiB behind the last separator end the channel. */
  lemma LongCommandsEndChannel(replies: Replies, residue: seq<u8>, chunk: seq<u8>)
    requires |residue| + |chunk| > 65536
    ensures Streams.Receive(ReadCommand, Answering, MAX_GUEST_MESSAGE_BYTES, replies, residue, chunk)
         == Service(replies, residue, [], Some(TooLong))
  {
  }
}

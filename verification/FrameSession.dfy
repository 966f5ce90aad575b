/**
 The frame session over the bytes of its pipe: messages are taken off the pipe one by one and handed
 to the session loop, and its responses go out as releases.
 */
module FrameSessions {
  import opened Wrappers
  import opened Bytes
  import opened Streams
  import opened Pipes
  import opened FramePools
  import opened FrameBrokers
  import opened FrameWire

  /** Why a session is over; a pipe may close at any byte. */
  datatype Cause = PipeClosed | WrongHeader | Stopped(error: SessionError)

  datatype Ending = Ending(session: Session, outputs: seq<Output>, cause: Cause)

  /** Messages with what the platform answers while each of them is handled. */
  function Events(messages: seq<Message>, env: nat -> Env, from: nat): (events: seq<Event>)
    ensures |events| == |messages|
    decreases |messages|
  {
    if messages == [] then [] else [Event(messages[0], env(from))] + Events(messages[1..], env, from + 1)
  }

  /** What bytes that hold no whole message do to a session: a header alone can already end it. */
  function Leftover(s: Session, rest: seq<u8>): Cause {
    if |rest| < HEADER_SIZE then PipeClosed
    else
      match ReadHeader(rest)
      case None => WrongHeader
      case Some(Header(kind, size)) =>
        if kind == KIND_REGISTER then
          if size != REGISTER_SIZE then Stopped(BadSize)
          else if s.pool.Some? then Stopped(RegisteredTooLate)
          else PipeClosed
        else if kind == KIND_PUBLISH then
          if size != PUBLISH_SIZE then Stopped(BadSize) else PipeClosed
        else Stopped(UnsupportedMessage)
  }

  function EndOf(o: Outcome, rest: seq<u8>): Ending {
    Ending(o.session, o.outputs, if o.error.Some? then Stopped(o.error.value) else Leftover(o.session, rest))
  }

  /** A session that goes on over some bytes: the run over the messages in them, and what is left over. */
  function Onwards(cfg: Config, s: Session, outputs: seq<Output>, bytes: seq<u8>, env: nat -> Env, from: nat): Ending {
    var reading := ReadItems(ReadMessage, bytes);
    EndOf(FrameBrokers.Run(cfg, s, outputs, Events(reading.items, env, from)), reading.rest)
  }

  function SessionOver(cfg: Config, bytes: seq<u8>, env: nat -> Env): Ending {
    if !LaunchAccepted(cfg) then Ending(INITIAL, [], Stopped(InvalidLaunch))
    else Onwards(cfg, INITIAL, [], bytes, env, 0)
  }

  /** One message of the bytes. */
  lemma OnwardsStep(
    cfg: Config, s: Session, outputs: seq<Output>, bytes: seq<u8>, env: nat -> Env, from: nat,
    m: Message, rest: seq<u8>)
    requires ReadMessage(bytes) == Got(m, rest) && |rest| < |bytes|
    ensures var o := FrameBrokers.Step(cfg, s, Event(m, env(from)));
            Onwards(cfg, s, outputs, bytes, env, from)
            == if o.error.Some? then Ending(o.session, outputs + o.outputs, Stopped(o.error.value))
               else Onwards(cfg, o.session, outputs + o.outputs, rest, env, from + 1)
  {
    var reading := ReadItems(ReadMessage, bytes);
    ReadStep(ReadMessage, bytes, m, rest);
    assert reading.items[1..] == ReadItems(ReadMessage, rest).items;
    var events := Events(reading.items, env, from);
    assert events[0] == Event(m, env(from)) && events[1..] == Events(reading.items[1..], env, from + 1);
  }

  /** Bytes that hold no whole message. */
  lemma NoMessage(cfg: Config, s: Session, outputs: seq<Output>, bytes: seq<u8>, env: nat -> Env, from: nat)
    requires !ReadMessage(bytes).Got?
    ensures Onwards(cfg, s, outputs, bytes, env, from) == Ending(s, outputs, Leftover(s, bytes))
  {
  }

  lemma HeaderInFront(bytes: seq<u8>)
    requires |bytes| >= HEADER_SIZE
    ensures ReadHeader(bytes[..HEADER_SIZE]) == ReadHeader(bytes)
  {
  }

  lemma BodyBehind(bytes: seq<u8>, size: nat)
    requires HEADER_SIZE <= size <= |bytes|
    ensures bytes[HEADER_SIZE..][..size - HEADER_SIZE] == bytes[HEADER_SIZE..size]
    ensures bytes[HEADER_SIZE..][size - HEADER_SIZE..] == bytes[size..]
  {
  }

  /** What handling the first message of some bytes comes to. */
  ghost predicate Served(broker: FrameBroker, pipe: Source, env: nat -> Env, n: nat, bytes: seq<u8>,
                         s: Session, outputs: seq<Output>, cause: Option<Cause>)
    reads broker, broker.pool, pipe
  {
    Onwards(broker.cfg, s, outputs, bytes, env, n)
    == match cause
       case Some(c) => Ending(broker.State(), broker.outputs, c)
       case None => Onwards(broker.cfg, broker.State(), broker.outputs, pipe.bytes, env, n + 1)
  }

  /** A registration whose header has been read: its checks, its body and the registration branch. */
  method ServeRegistration(broker: FrameBroker, pipe: Source, env: nat -> Env, n: nat, size: u32, ghost bytes: seq<u8>)
    returns (cause: Option<Cause>)
    requires |bytes| >= HEADER_SIZE && ReadHeader(bytes) == Some(Header(KIND_REGISTER, size))
    requires pipe.bytes == bytes[HEADER_SIZE..]
    modifies broker, pipe
    ensures broker.pool == old(broker.pool) || fresh(broker.pool)
    ensures Served(broker, pipe, env, n, bytes, old(broker.State()), old(broker.outputs), cause)
    ensures cause.None? ==> |pipe.bytes| < |bytes|
  {
    if size != REGISTER_SIZE {
      NoMessage(broker.cfg, broker.State(), broker.outputs, bytes, env, n);
      return Some(Stopped(BadSize));
    }
    if broker.pool != null {
      return Some(Stopped(RegisteredTooLate));
    }
    var body := pipe.ReadExact(REGISTER_SIZE - HEADER_SIZE);
    if body.None? {
      return Some(PipeClosed);
    }
    BodyBehind(bytes, REGISTER_SIZE);
    var r := ReadRegistration(body.value);
    OnwardsStep(broker.cfg, broker.State(), broker.outputs, bytes, env, n, FrameBrokers.Register(size, r), pipe.bytes);
    var error := broker.Register(size, r, env(n));
    cause := if error.Some? then Some(Stopped(error.value)) else None;
  }

  /** A publication whose header has been read. */
  method ServePublication(broker: FrameBroker, pipe: Source, env: nat -> Env, n: nat, size: u32, ghost bytes: seq<u8>)
    returns (cause: Option<Cause>)
    requires |bytes| >= HEADER_SIZE && ReadHeader(bytes) == Some(Header(KIND_PUBLISH, size))
    requires pipe.bytes == bytes[HEADER_SIZE..]
    modifies broker, broker.pool, pipe
    ensures broker.pool == old(broker.pool)
    ensures Served(broker, pipe, env, n, bytes, old(broker.State()), old(broker.outputs), cause)
    ensures cause.None? ==> |pipe.bytes| < |bytes|
  {
    if size != PUBLISH_SIZE {
      NoMessage(broker.cfg, broker.State(), broker.outputs, bytes, env, n);
      return Some(Stopped(BadSize));
    }
    var body := pipe.ReadExact(PUBLISH_SIZE - HEADER_SIZE);
    if body.None? {
      return Some(PipeClosed);
    }
    BodyBehind(bytes, PUBLISH_SIZE);
    var p := ReadPublication(body.value);
    OnwardsStep(broker.cfg, broker.State(), broker.outputs, bytes, env, n, Post(size, p), pipe.bytes);
    var error := broker.Publish(size, p, env(n));
    cause := if error.Some? then Some(Stopped(error.value)) else None;
  }

  /** One round of the session loop: a header, and the branch for its kind. */
  method ServeOne(broker: FrameBroker, pipe: Source, env: nat -> Env, n: nat) returns (cause: Option<Cause>)
    modifies broker, broker.pool, pipe
    ensures broker.pool == old(broker.pool) || fresh(broker.pool)
    ensures Served(broker, pipe, env, n, old(pipe.bytes), old(broker.State()), old(broker.outputs), cause)
    ensures cause.None? ==> |pipe.bytes| < |old(pipe.bytes)|
  {
    ghost var bytes := pipe.bytes;
    var start := pipe.ReadExact(HEADER_SIZE);
    if start.None? {
      NoMessage(broker.cfg, broker.State(), broker.outputs, bytes, env, n);
      return Some(PipeClosed);
    }
    HeaderInFront(bytes);
    var header := ReadHeader(start.value);
    if header.None? {
      NoMessage(broker.cfg, broker.State(), broker.outputs, bytes, env, n);
      return Some(WrongHeader);
    }
    if header.value.kind == KIND_REGISTER {
      cause := ServeRegistration(broker, pipe, env, n, header.value.size, bytes);
    } else if header.value.kind == KIND_PUBLISH {
      cause := ServePublication(broker, pipe, env, n, header.value.size, bytes);
    } else {
      NoMessage(broker.cfg, broker.State(), broker.outputs, bytes, env, n);
      cause := Some(Stopped(UnsupportedMessage));
    }
  }

  /** The whole session over a pipe. */
  method Serve(broker: FrameBroker, pipe: Source, env: nat -> Env) returns (cause: Cause)
    requires broker.State() == INITIAL && broker.outputs == [] && broker.pool == null
    modifies broker, pipe
    ensures Ending(broker.State(), broker.outputs, cause) == SessionOver(broker.cfg, old(pipe.bytes), env)
  {
    if !LaunchAccepted(broker.cfg) {
      return Stopped(InvalidLaunch);
    }
    ghost var whole := SessionOver(broker.cfg, pipe.bytes, env);
    var n := 0;
    while true
      invariant broker.pool == null || fresh(broker.pool)
      invariant Onwards(broker.cfg, broker.State(), broker.outputs, pipe.bytes, env, n) == whole
      decreases |pipe.bytes|
    {
      var stopped := ServeOne(broker, pipe, env, n);
      if stopped.Some? {
        return stopped.value;
      }
      n := n + 1;
    }
  }

  // ---------------------------------------------------------------------------------------------
  // From bytes to bytes
  // ---------------------------------------------------------------------------------------------

  /** The releases among the outputs of a session. */
  function Releases(outputs: seq<Output>): (releases: seq<Release>)
    ensures |releases| == Responses(outputs)
  {
    if outputs == [] then []
    else
      var last := outputs[|outputs| - 1];
      Releases(outputs[..|outputs| - 1])
      + if last.Response? then [FrameWire.Release.Release(last.bufferId, last.accepted, last.value)] else []
  }

  /** What a session sends back. */
  function Sent(outputs: seq<Output>): seq<u8> {
    WriteItems(EncodeRelease, Releases(outputs))
  }

  /**
   A session over arbitrary bytes. Unless a message stops it, what it sends back is read as exactly one
   release for each message in the bytes; no pool call is ever refused for ownership or monotonicity.
   */
  lemma BytesAreAnswered(cfg: Config, bytes: seq<u8>, env: nat -> Env)
    requires LaunchAccepted(cfg)
    ensures var e := SessionOver(cfg, bytes, env);
            var messages := ReadItems(ReadMessage, bytes).items;
            var o := FrameBrokers.Run(cfg, INITIAL, [], Events(messages, env, 0));
            && ReadItems(ReadRelease, Sent(e.outputs)) == Reading(Releases(e.outputs), [], false)
            && NoPoolRefusal(o)
            && (o.error.None? ==> Inv(cfg, e.session, e.outputs) && |Releases(e.outputs)| == |messages|)
  {
    var messages := ReadItems(ReadMessage, bytes).items;
    SessionRefinesPool(cfg, Events(messages, env, 0));
    ReleasesRoundTrip(Releases(SessionOver(cfg, bytes, env).outputs));
  }

  /** Well-formed messages written on the pipe are exactly the messages of the session. */
  lemma WrittenMessagesAreServed(cfg: Config, messages: seq<Message>, padding: seq<u8>, env: nat -> Env)
    requires LaunchAccepted(cfg) && |padding| == 7 && forall m <- messages :: WellFormed(m)
    ensures SessionOver(cfg, WriteItems(Writer(padding), messages), env)
         == EndOf(FrameBrokers.Run(cfg, INITIAL, [], Events(messages, env, 0)), [])
  {
    StreamRoundTrip(messages, padding);
  }
}

/**
 The frame producer's session loop: it negotiates three buffers, releases posts that arrive before
 negotiation is complete, creates the pool from what it has seen, and then drives the pool one wire
 message at a time. Vulkan and the file system are inputs of each step.
 */
module FrameBrokers {
  import opened Wrappers
  import opened Bytes
  import opened FramePools

  const REGISTER_SIZE: u32 := 72
  const PUBLISH_SIZE: u32 := 28

  datatype Config = Config(instanceId: nat, generation: u64, transport: Transport, maxExtent: u32)

  datatype Registration = Registration(
    bufferId: u8, dedicated: bool, linear: bool, luidValid: bool, memoryTypeIndex: u32,
    width: u32, height: u32, strideBytes: u32, virglFormat: u32, createFlags: u32, usage: u32,
    imageFormat: int, allocationSize: u64, memoryHandle: u64, luid: seq<u8>)

  datatype Publication = Publication(bufferId: u8, acquireValue: u64)

  datatype Message =
    | Register(size: u32, registration: Registration)
    | Post(size: u32, publication: Publication)
    | Unsupported(kind: u16)

  /** What the platform answers while one message is handled. */
  datatype Env = Env(adapterOpens: bool, importSucceeds: bool, markerPresent: bool, elapsedMs: nat)

  datatype Event = Event(message: Message, env: Env)

  datatype Output =
    | Response(bufferId: u8, accepted: bool, value: u64)
    | MetricsFile(metrics: Metrics)
    | ReadyMarker

  datatype SessionError =
    | BadSize | RegisteredTooLate | InvalidHandle | BufferOutOfRange | OutsideSignedBounds | NoLuid
    | AdapterChanged | AdapterUnavailable | SizeChanged | DuplicateRegistration | NotMonotonic
    | PoolFailure(error: FrameError) | UnsupportedMessage | MarkerMissing | InvalidLaunch

  datatype Session = Session(
    adapter: Option<seq<u8>>, registrations: map<u8, (Descriptor, Handle)>,
    negotiatedSize: Option<(u32, u32)>, pool: Option<PoolState>, published: bool,
    lastAcquire: u64, lastReported: u64)

  datatype Outcome = Outcome(session: Session, outputs: seq<Output>, error: Option<SessionError>)

  const INITIAL := Session(None, map[], None, None, false, 0, 0)

  predicate LaunchAccepted(cfg: Config) {
    cfg.generation > 0 && cfg.transport == VulkanWin32
  }

  // ---------------------------------------------------------------------------------------------
  // One step
  // ---------------------------------------------------------------------------------------------

  /** Vulkan codes of B8G8R8A8 and R8G8B8A8, each as UNORM and SRGB. */
  predicate SupportedVulkanFormat(format: int) {
    format == 44 || format == 50 || format == 37 || format == 43
  }

  predicate SupportedFrameFormat(r: Registration) {
    r.virglFormat == 1 || r.virglFormat == 2 || SupportedVulkanFormat(r.imageFormat)
  }

  predicate WithinSignedBounds(cfg: Config, r: Registration) {
    && r.width >= 320 && r.height >= 320
    && r.width <= cfg.maxExtent && r.height <= cfg.maxExtent
    && r.strideBytes >= SaturatingRowBytes(r.width)
  }

  /** The raw Win32 handle must be a non-zero value of the signed pointer type. */
  predicate UsableHandle(raw: u64) {
    0 < raw < 0x8000_0000_0000_0000
  }

  function DescriptorFor(cfg: Config, r: Registration): Descriptor {
    Descriptor(FRAME_PROTOCOL_VERSION, cfg.instanceId, cfg.generation, r.bufferId, cfg.transport,
               Bgra8Srgb, r.width, r.height, r.strideBytes, 0, 0, 1)
  }

  /** Every imported Vulkan image reports this transport and one out-of-band handle. */
  const IMPORTED := Handle(VulkanWin32, 1)

  function SessionProbe(cfg: Config): Probe {
    Probe(COMPONENT_PROTOCOL_VERSION, true, cfg.transport, true, true, true, true)
  }

  /** The values of a BTreeMap, in key order from k on. */
  function InKeyOrder(m: map<u8, (Descriptor, Handle)>, k: nat): Buffers
    decreases 256 - k
  {
    if k >= 256 then []
    else (if k in m then [m[k]] else []) + InKeyOrder(m, k + 1)
  }

  function CheckMarker(o: Outcome, env: Env): Outcome {
    if o.error.None? && o.session.published && !env.markerPresent
    then o.(error := Some(MarkerMissing))
    else o
  }

  function Stop(s: Session, e: SessionError): Outcome {
    Outcome(s, [], Some(e))
  }

  function Respond(s: Session, id: u8, accepted: bool, value: u64): Outcome {
    Outcome(s, [Response(id, accepted, value)], None)
  }

  function Negotiated(cfg: Config, s: Session, id: u8): Outcome {
    var drained := s.(registrations := map[]);
    match CreateState(SessionProbe(cfg), InKeyOrder(s.registrations, 0))
    case Failure(e) => Outcome(drained, [Response(id, true, 0)], Some(PoolFailure(e)))
    case Success(pool) =>
      Outcome(drained.(pool := Some(pool), published := true, lastReported := 0),
              [Response(id, true, 0), MetricsFile(pool.metrics), ReadyMarker], None)
  }

  /** The registrations after a newly accepted buffer, before the pool is considered. */
  function WithRegistration(cfg: Config, s: Session, r: Registration): Session {
    s.(negotiatedSize := Some((r.width, r.height)),
       registrations := s.registrations[r.bufferId := (DescriptorFor(cfg, r), IMPORTED)])
  }

  function AcceptRegistration(cfg: Config, s: Session, r: Registration): Outcome {
    if s.negotiatedSize.Some? && s.negotiatedSize.value != (r.width, r.height) then Stop(s, SizeChanged)
    else
      var added := WithRegistration(cfg, s, r);
      if r.bufferId in s.registrations then Stop(added, DuplicateRegistration)
      else if |added.registrations| == FRAME_BUFFER_COUNT then Negotiated(cfg, added, r.bufferId)
      else Respond(added, r.bufferId, true, 0)
  }

  /** What the checks before negotiation decide about a registration. */
  datatype Verdict = Fatal(error: SessionError) | Refuse(session: Session) | Proceed(session: Session)

  /** What ends a session before the format of a registration is looked at. */
  function Unacceptable(cfg: Config, negotiated: bool, size: u32, r: Registration): (e: Option<SessionError>)
    ensures e.Some? ==> !e.value.PoolFailure?
  {
    if size != REGISTER_SIZE then Some(BadSize)
    else if negotiated then Some(RegisteredTooLate)
    else if !UsableHandle(r.memoryHandle) then Some(InvalidHandle)
    else if r.bufferId >= FRAME_BUFFER_COUNT then Some(BufferOutOfRange)
    else if !WithinSignedBounds(cfg, r) then Some(OutsideSignedBounds)
    else None
  }

  function Screen(cfg: Config, s: Session, size: u32, r: Registration, env: Env): (v: Verdict)
    ensures v.Fatal? ==> !v.error.PoolFailure?
    ensures v.Refuse? || v.Proceed? ==> v.session == s.(adapter := v.session.adapter)
    ensures v.Refuse? || v.Proceed? ==> s.pool.None? && r.bufferId < FRAME_BUFFER_COUNT && WithinSignedBounds(cfg, r)
  {
    match Unacceptable(cfg, s.pool.Some?, size, r)
    case Some(e) => Fatal(e)
    case None =>
      if !SupportedFrameFormat(r) then Refuse(s)
      else if !r.luidValid then Fatal(NoLuid)
      else if s.adapter.Some? && s.adapter.value != r.luid then Fatal(AdapterChanged)
      else if s.adapter.None? && !env.adapterOpens then Fatal(AdapterUnavailable)
      else
        var bound := s.(adapter := Some(r.luid));
        if SupportedVulkanFormat(r.imageFormat) && env.importSucceeds then Proceed(bound) else Refuse(bound)
  }

  function RegisterStep(cfg: Config, s: Session, size: u32, r: Registration, env: Env): Outcome {
    match Screen(cfg, s, size, r, env)
    case Fatal(e) => Stop(s, e)
    case Refuse(kept) => Respond(kept, r.bufferId, false, 0)
    case Proceed(bound) => CheckMarker(AcceptRegistration(cfg, bound, r), env)
  }

  /** Acquire, publish, import and release one frame; the first refusal stops the cycle. */
  function Cycle(pool: PoolState, id: u8, value: u64): CallOutcome {
    var a := Apply(pool, Acquire(id));
    if a.reply.Failed? then a
    else
      var b := Apply(a.state, Publish(id, value));
      if b.reply.Failed? then b
      else
        var c := Apply(b.state, Import(id));
        if c.reply.Failed? then c else Apply(c.state, Release(id, value, true))
  }

  /** Frames per 1000 seconds over the reporting interval, in 32 bits. */
  function FpsMilli(frames: u64, elapsedMs: nat): u32 {
    var window := if elapsedMs < 1 then 1 else elapsedMs;
    Min(frames * 1_000_000 / window, U32_MAX)
  }

  function Interval(produced: u64, reported: u64): u64 {
    if produced < reported then 0 else produced - reported
  }

  function Report(s: Session, metrics: Metrics, env: Env): (Session, seq<Output>) {
    if env.elapsedMs >= 1000 then
      (s.(lastReported := metrics.produced),
       [MetricsFile(metrics.(fpsMilli := FpsMilli(Interval(metrics.produced, s.lastReported), env.elapsedMs)))])
    else (s, [])
  }

  /** A post once the pool exists. */
  function PostToPool(s: Session, pool: PoolState, p: Publication, env: Env): Outcome {
    var cycled := Cycle(pool, p.bufferId, p.acquireValue);
    if cycled.reply.Failed? then Stop(s.(pool := Some(cycled.state)), PoolFailure(cycled.reply.error))
    else PostTaken(s.(lastAcquire := p.acquireValue, pool := Some(cycled.state)), cycled.state.metrics, p, env)
  }

  /** The report that may be due, and the response. */
  function PostTaken(s: Session, metrics: Metrics, p: Publication, env: Env): Outcome {
    var (after, reports) := Report(s, metrics, env);
    CheckMarker(Outcome(after, reports + [Response(p.bufferId, true, p.acquireValue)], None), env)
  }

  /** A post that arrives before the negotiation is complete. */
  function PostEarly(s: Session, p: Publication, env: Env): Outcome {
    var seen := s.(lastAcquire := p.acquireValue);
    if p.bufferId in s.registrations then
      var (d, h) := s.registrations[p.bufferId];
      var seeded := d.(acquireValue := p.acquireValue, releaseValue := p.acquireValue);
      CheckMarker(Respond(seen.(registrations := s.registrations[p.bufferId := (seeded, h)]),
                          p.bufferId, true, p.acquireValue), env)
    else Respond(seen, p.bufferId, false, p.acquireValue)
  }

  function PostStep(s: Session, size: u32, p: Publication, env: Env): Outcome {
    if size != PUBLISH_SIZE then Stop(s, BadSize)
    else if p.acquireValue <= s.lastAcquire then Stop(s, NotMonotonic)
    else
      match s.pool
      case Some(pool) => PostToPool(s, pool, p, env)
      case None => PostEarly(s, p, env)
  }

  function Step(cfg: Config, s: Session, event: Event): Outcome {
    match event.message
    case Register(size, r) => RegisterStep(cfg, s, size, r, event.env)
    case Post(size, p) => PostStep(s, size, p, event.env)
    case Unsupported(_) => Stop(s, UnsupportedMessage)
  }

  /** The whole session: messages are handled in order until one of them ends it. */
  function Run(cfg: Config, s: Session, outputs: seq<Output>, events: seq<Event>): Outcome
    decreases |events|
  {
    if events == [] then Outcome(s, outputs, None)
    else
      var o := Step(cfg, s, events[0]);
      if o.error.Some? then o.(outputs := outputs + o.outputs)
      else Run(cfg, o.session, outputs + o.outputs, events[1..])
  }

  // ---------------------------------------------------------------------------------------------
  // What the outputs of a session say
  // ---------------------------------------------------------------------------------------------

  /** The value of the last accepting response for a buffer, 0 when there is none. */
  function LastAccepted(outputs: seq<Output>, id: u8): u64 {
    if outputs == [] then 0
    else
      var last := outputs[|outputs| - 1];
      if last.Response? && last.accepted && last.bufferId == id then last.value
      else LastAccepted(outputs[..|outputs| - 1], id)
  }

  /** Whether the outputs hold an accepting response for a buffer. */
  predicate EverAccepted(outputs: seq<Output>, id: u8) {
    exists i :: 0 <= i < |outputs| && outputs[i].Response? && outputs[i].accepted && outputs[i].bufferId == id
  }

  /** Accepting responses sent after the ready marker. */
  function AcceptedSinceReady(outputs: seq<Output>): nat {
    if outputs == [] then 0
    else
      var last := outputs[|outputs| - 1];
      if last == ReadyMarker then 0
      else (if last.Response? && last.accepted then 1 else 0) + AcceptedSinceReady(outputs[..|outputs| - 1])
  }

  /** The frame count of the last metrics file. */
  function LastReported(outputs: seq<Output>): u64 {
    if outputs == [] then 0
    else
      var last := outputs[|outputs| - 1];
      if last.MetricsFile? then last.metrics.produced else LastReported(outputs[..|outputs| - 1])
  }

  /** The positive values echoed to the producer, in order: one for each post. */
  function EchoedValues(outputs: seq<Output>): seq<u64> {
    if outputs == [] then []
    else
      var last := outputs[|outputs| - 1];
      EchoedValues(outputs[..|outputs| - 1]) + if last.Response? && last.value > 0 then [last.value] else []
  }

  function Responses(outputs: seq<Output>): nat {
    if outputs == [] then 0
    else Responses(outputs[..|outputs| - 1]) + if outputs[|outputs| - 1].Response? then 1 else 0
  }

  // ---------------------------------------------------------------------------------------------
  // The invariant
  // ---------------------------------------------------------------------------------------------

  ghost predicate Negotiating(cfg: Config, s: Session, outputs: seq<Output>) {
    && s.pool.None? && !s.published
    && s.registrations.Keys <= {0, 1, 2} && |s.registrations| < FRAME_BUFFER_COUNT
    && (forall id <- s.registrations :: Seeded(cfg, s, outputs, id))
    && (forall id :: EverAccepted(outputs, id) ==> id in s.registrations)
    && ReadyMarker !in outputs
  }

  ghost predicate Seeded(cfg: Config, s: Session, outputs: seq<Output>, id: u8)
    requires id in s.registrations
  {
    var (d, h) := s.registrations[id];
    && d.bufferId == id && d.generation == cfg.generation && d.instanceId == cfg.instanceId
    && ValidateDescriptor(SessionProbe(cfg), cfg.generation, d, h) == None
    && s.negotiatedSize == Some((d.width, d.height))
    && d.acquireValue == d.releaseValue == LastAccepted(outputs, id) <= s.lastAcquire
    && EverAccepted(outputs, id)
  }

  ghost predicate Idle(cfg: Config, s: Session, outputs: seq<Output>, slot: Slot, id: u8) {
    && slot.owner == Available
    && slot.lastAcquire == slot.lastRelease == LastAccepted(outputs, id) <= s.lastAcquire
    && slot.descriptor.acquireValue == slot.descriptor.releaseValue == slot.lastAcquire
    && slot.descriptor.bufferId == id
    && slot.descriptor.generation == cfg.generation && slot.descriptor.transport == cfg.transport
    && s.negotiatedSize == Some((slot.descriptor.width, slot.descriptor.height))
  }

  ghost predicate Running(cfg: Config, s: Session, outputs: seq<Output>) {
    && s.pool.Some? && s.published && s.registrations == map[]
    && var pool := s.pool.value;
    && pool.generation == cfg.generation
    && pool.slots.Keys == {0, 1, 2}
    && (forall id <- pool.slots :: Idle(cfg, s, outputs, pool.slots[id], id))
    && pool.metrics.produced == Capped(AcceptedSinceReady(outputs))
    && pool.metrics.imported == pool.metrics.presented == pool.metrics.produced
    && pool.metrics.dropped == pool.metrics.fpsMilli == 0 && pool.metrics.generation == cfg.generation
    && s.lastReported == LastReported(outputs) <= pool.metrics.produced
    && EverAccepted(outputs, 0) && EverAccepted(outputs, 1) && EverAccepted(outputs, 2)
  }

  ghost predicate Echoed(s: Session, outputs: seq<Output>) {
    && Increasing(EchoedValues(outputs))
    && forall v <- EchoedValues(outputs) :: v <= s.lastAcquire
  }

  ghost predicate Inv(cfg: Config, s: Session, outputs: seq<Output>) {
    && LaunchAccepted(cfg)
    && Echoed(s, outputs)
    && (Negotiating(cfg, s, outputs) || Running(cfg, s, outputs))
  }

  lemma AppendOutput(outputs: seq<Output>, o: Output)
    ensures forall id :: LastAccepted(outputs + [o], id) ==
              if o.Response? && o.accepted && o.bufferId == id then o.value else LastAccepted(outputs, id)
    ensures AcceptedSinceReady(outputs + [o]) ==
              if o == ReadyMarker then 0
              else AcceptedSinceReady(outputs) + if o.Response? && o.accepted then 1 else 0
    ensures LastReported(outputs + [o]) == if o.MetricsFile? then o.metrics.produced else LastReported(outputs)
    ensures EchoedValues(outputs + [o]) ==
              EchoedValues(outputs) + if o.Response? && o.value > 0 then [o.value] else []
    ensures Responses(outputs + [o]) == Responses(outputs) + if o.Response? then 1 else 0
  {
    var all := outputs + [o];
    assert all[..|all| - 1] == outputs;
  }

  lemma EverAcceptedAppend(outputs: seq<Output>, o: Output, id: u8)
    ensures EverAccepted(outputs + [o], id) <==>
            EverAccepted(outputs, id) || (o.Response? && o.accepted && o.bufferId == id)
  {
    var all := outputs + [o];
    if EverAccepted(outputs, id) {
      var i :| 0 <= i < |outputs| && outputs[i].Response? && outputs[i].accepted && outputs[i].bufferId == id;
      assert all[i] == outputs[i];
    }
    if o.Response? && o.accepted && o.bufferId == id {
      assert all[|outputs|] == o;
    }
  }

  // ---------------------------------------------------------------------------------------------
  // Every step keeps the invariant
  // ---------------------------------------------------------------------------------------------

  /** An idle pool takes a frame with a new value through all four calls; an unknown id is its only refusal. */
  lemma CycleExact(pool: PoolState, id: u8, value: u64)
    requires id in pool.slots ==>
               var slot := pool.slots[id];
               slot.owner == Available && slot.lastAcquire < value && slot.lastRelease < value
    ensures Cycle(pool, id, value).reply == if id in pool.slots then Done else Failed(UnknownBuffer(id))
    ensures id in pool.slots ==>
              var slot := pool.slots[id];
              var m := pool.metrics;
              Cycle(pool, id, value).state == pool.(
                slots := pool.slots[id := Slot(
                  slot.descriptor.(acquireValue := value, releaseValue := value), slot.handle,
                  Available, value, value)],
                metrics := m.(produced := SaturatingInc(m.produced), imported := SaturatingInc(m.imported),
                              presented := SaturatingInc(m.presented)))
  {
    if id in pool.slots {
      var a := Apply(pool, Acquire(id));
      var b := Apply(a.state, Publish(id, value));
      var c := Apply(b.state, Import(id));
      var d := Apply(c.state, Release(id, value, true));
      assert d.state.slots == pool.slots[id := d.state.slots[id]];
    }
  }

  lemma {:induction false} NothingAbove(m: map<u8, (Descriptor, Handle)>, k: nat)
    requires forall id <- m :: id < k
    ensures InKeyOrder(m, k) == []
    decreases 256 - k
  {
    if k < 256 {
      NothingAbove(m, k + 1);
    }
  }

  lemma ThreeInKeyOrder(m: map<u8, (Descriptor, Handle)>)
    requires m.Keys == {0, 1, 2}
    ensures InKeyOrder(m, 0) == [m[0], m[1], m[2]]
  {
    NothingAbove(m, 3);
    assert InKeyOrder(m, 2) == [m[2]] + InKeyOrder(m, 3);
    assert InKeyOrder(m, 1) == [m[1]] + InKeyOrder(m, 2);
  }

  lemma ThreeKeys(m: map<u8, (Descriptor, Handle)>)
    requires m.Keys <= {0, 1, 2} && |m| == 3
    ensures m.Keys == {0, 1, 2}
  {
    var all: set<u8> := {0, 1, 2};
    assert |m.Keys| == 3;
    var rest := all - m.Keys;
    assert m.Keys + rest == all;
    assert |all| == 3;
    assert rest == {};
  }

  /** With three seeded registrations the pool cannot be refused, and its slots hold the seeds. */
  lemma NegotiationSucceeds(cfg: Config, s: Session, outputs: seq<Output>)
    requires LaunchAccepted(cfg)
    requires s.registrations.Keys == {0, 1, 2}
    requires forall id <- s.registrations :: Seeded(cfg, s, outputs, id)
    ensures var r := CreateState(SessionProbe(cfg), InKeyOrder(s.registrations, 0));
            && r.Success?
            && r.value.generation == cfg.generation
            && r.value.metrics == FreshMetrics(cfg.generation)
            && r.value.slots.Keys == {0, 1, 2}
            && forall id <- r.value.slots :: Idle(cfg, s, outputs, r.value.slots[id], id)
  {
    ThreeInKeyOrder(s.registrations);
    var buffers := InKeyOrder(s.registrations, 0);
    assert Seeded(cfg, s, outputs, 0) && Seeded(cfg, s, outputs, 1) && Seeded(cfg, s, outputs, 2);
    CreateExact(SessionProbe(cfg), buffers);
    var slots := CreateState(SessionProbe(cfg), buffers).value.slots;
    assert Ids(buffers) == {0, 1, 2} by {
      assert buffers[0].0.bufferId in Ids(buffers);
      assert buffers[1].0.bufferId in Ids(buffers);
      assert buffers[2].0.bufferId in Ids(buffers);
    }
    assert slots[0] == FreshSlot(buffers[0].0, buffers[0].1);
    assert slots[1] == FreshSlot(buffers[1].0, buffers[1].1);
    assert slots[2] == FreshSlot(buffers[2].0, buffers[2].1);
  }

  /** The only pool error a session can meet: a post for an id outside the three buffers. */
  ghost predicate OnlyUnknownIds(s: Session, event: Event, o: Outcome) {
    o.error.Some? && o.error.value.PoolFailure? ==>
      && s.pool.Some? && event.message.Post?
      && var id := event.message.publication.bufferId;
      id >= FRAME_BUFFER_COUNT && o.error.value.error == UnknownBuffer(id)
  }

  ghost predicate StepSound(cfg: Config, s: Session, outputs: seq<Output>, event: Event) {
    var o := Step(cfg, s, event);
    && OnlyUnknownIds(s, event, o)
    && (o.error.None? ==>
          && Inv(cfg, o.session, outputs + o.outputs)
          && Responses(outputs + o.outputs) == Responses(outputs) + 1)
  }

  lemma RefusedRegistrationSound(cfg: Config, s: Session, outputs: seq<Output>, s': Session, id: u8)
    requires Negotiating(cfg, s, outputs) && Echoed(s, outputs)
    requires s' == s.(adapter := s'.adapter)
    ensures var all := outputs + [Response(id, false, 0)];
            Negotiating(cfg, s', all) && Echoed(s', all) && Responses(all) == Responses(outputs) + 1
  {
    var response := Response(id, false, 0);
    AppendOutput(outputs, response);
    forall k ensures EverAccepted(outputs + [response], k) <==> EverAccepted(outputs, k) {
      EverAcceptedAppend(outputs, response, k);
    }
    forall k <- s'.registrations ensures Seeded(cfg, s', outputs + [response], k) {
      assert Seeded(cfg, s, outputs, k);
    }
  }

  lemma RegistrationSeeds(cfg: Config, s: Session, outputs: seq<Output>, r: Registration)
    requires LaunchAccepted(cfg) && Negotiating(cfg, s, outputs) && Echoed(s, outputs)
    requires r.bufferId < FRAME_BUFFER_COUNT && WithinSignedBounds(cfg, r) && r.bufferId !in s.registrations
    requires s.negotiatedSize.None? || s.negotiatedSize.value == (r.width, r.height)
    ensures var added := WithRegistration(cfg, s, r);
            var all := outputs + [Response(r.bufferId, true, 0)];
            && added.registrations.Keys <= {0, 1, 2} && |added.registrations| <= 3
            && (forall k <- added.registrations :: Seeded(cfg, added, all, k))
            && (forall k :: EverAccepted(all, k) ==> k in added.registrations)
            && Echoed(added, all)
            && ReadyMarker !in all
            && Responses(all) == Responses(outputs) + 1
  {
    var added := WithRegistration(cfg, s, r);
    var response := Response(r.bufferId, true, 0);
    var all := outputs + [response];
    AppendOutput(outputs, response);
    assert |added.registrations| == |s.registrations| + 1;
    forall k ensures EverAccepted(all, k) <==> EverAccepted(outputs, k) || k == r.bufferId {
      EverAcceptedAppend(outputs, response, k);
    }
    forall k <- added.registrations ensures Seeded(cfg, added, all, k) {
      if k != r.bufferId {
        assert Seeded(cfg, s, outputs, k);
      }
    }
  }

  lemma PoolCreationSound(cfg: Config, s: Session, first: seq<Output>, id: u8)
    requires LaunchAccepted(cfg)
    requires s.pool.None? && s.registrations.Keys == {0, 1, 2}
    requires forall k <- s.registrations :: Seeded(cfg, s, first, k)
    ensures var o := Negotiated(cfg, s, id);
            && o.error.None?
            && o.session.lastAcquire == s.lastAcquire
            && |o.outputs| == 3 && o.outputs[0] == Response(id, true, 0)
            && var all := first + o.outputs[1..];
            && Running(cfg, o.session, all)
            && EchoedValues(all) == EchoedValues(first)
            && Responses(all) == Responses(first)
  {
    var o := Negotiated(cfg, s, id);
    NegotiationSucceeds(cfg, s, first);
    var pool := CreateState(SessionProbe(cfg), InKeyOrder(s.registrations, 0)).value;
    var file := MetricsFile(pool.metrics);
    assert o.outputs[1..] == [file, ReadyMarker];
    assert first + o.outputs[1..] == first + [file] + [ReadyMarker];
    ReadyIsQuiet(first, file);
    assert Seeded(cfg, s, first, 0) && Seeded(cfg, s, first, 1) && Seeded(cfg, s, first, 2);
    FreshPoolRuns(cfg, s, o.session, first, first + [file] + [ReadyMarker], pool);
  }

  /** A session that has just got its pool. */
  lemma FreshPoolRuns(
    cfg: Config, s: Session, s': Session, first: seq<Output>, all: seq<Output>, pool: PoolState)
    requires s' == s.(registrations := map[], pool := Some(pool), published := true, lastReported := 0)
    requires pool.generation == cfg.generation && pool.metrics == FreshMetrics(cfg.generation)
    requires pool.slots.Keys == {0, 1, 2} && forall k <- pool.slots :: Idle(cfg, s, first, pool.slots[k], k)
    requires AcceptedSinceReady(all) == 0 && LastReported(all) == 0
    requires forall k :: LastAccepted(all, k) == LastAccepted(first, k)
    requires EverAccepted(all, 0) && EverAccepted(all, 1) && EverAccepted(all, 2)
    ensures Running(cfg, s', all)
  {
    forall k <- pool.slots ensures Idle(cfg, s', all, pool.slots[k], k) {
      assert Idle(cfg, s, first, pool.slots[k], k);
      StaysIdle(cfg, s, s', first, all, pool.slots[k], k);
    }
  }

  /** Creating the pool sends no response. */
  lemma ReadyIsQuiet(first: seq<Output>, file: Output)
    requires file.MetricsFile?
    ensures var all := first + [file] + [ReadyMarker];
            && (forall k :: LastAccepted(all, k) == LastAccepted(first, k))
            && (forall k :: EverAccepted(first, k) ==> EverAccepted(all, k))
            && EchoedValues(all) == EchoedValues(first) && Responses(all) == Responses(first)
            && AcceptedSinceReady(all) == 0 && LastReported(all) == file.metrics.produced
  {
    AppendOutput(first, file);
    AppendOutput(first + [file], ReadyMarker);
    forall k ensures EverAccepted(first, k) ==> EverAccepted(first + [file] + [ReadyMarker], k) {
      EverAcceptedAppend(first, file, k);
      EverAcceptedAppend(first + [file], ReadyMarker, k);
    }
  }

  lemma StaysIdle(
    cfg: Config, s: Session, s': Session, outputs: seq<Output>, all: seq<Output>, slot: Slot, id: u8)
    requires Idle(cfg, s, outputs, slot, id) && LastAccepted(all, id) == LastAccepted(outputs, id)
    requires s'.lastAcquire >= s.lastAcquire && s'.negotiatedSize == s.negotiatedSize
    ensures Idle(cfg, s', all, slot, id)
  {
  }

  lemma ThirdRegistrationSound(cfg: Config, s: Session, outputs: seq<Output>, r: Registration)
    requires LaunchAccepted(cfg) && Negotiating(cfg, s, outputs) && Echoed(s, outputs)
    requires r.bufferId < FRAME_BUFFER_COUNT && WithinSignedBounds(cfg, r) && r.bufferId !in s.registrations
    requires s.negotiatedSize.None? || s.negotiatedSize.value == (r.width, r.height)
    requires |WithRegistration(cfg, s, r).registrations| == FRAME_BUFFER_COUNT
    ensures var o := Negotiated(cfg, WithRegistration(cfg, s, r), r.bufferId);
            && o.error.None?
            && Inv(cfg, o.session, outputs + o.outputs)
            && Responses(outputs + o.outputs) == Responses(outputs) + 1
  {
    RegistrationSeeds(cfg, s, outputs, r);
    var added := WithRegistration(cfg, s, r);
    var first := outputs + [Response(r.bufferId, true, 0)];
    ThreeKeys(added.registrations);
    PoolCreationSound(cfg, added, first, r.bufferId);
    SplitFirst(outputs, Negotiated(cfg, added, r.bufferId).outputs);
  }

  lemma SplitFirst(outputs: seq<Output>, more: seq<Output>)
    requires |more| == 3
    ensures outputs + more == outputs + [more[0]] + more[1..]
  {
  }

  lemma EarlyRegistrationSound(cfg: Config, s: Session, outputs: seq<Output>, r: Registration)
    requires LaunchAccepted(cfg) && Negotiating(cfg, s, outputs) && Echoed(s, outputs)
    requires r.bufferId < FRAME_BUFFER_COUNT && WithinSignedBounds(cfg, r) && r.bufferId !in s.registrations
    requires s.negotiatedSize.None? || s.negotiatedSize.value == (r.width, r.height)
    requires |WithRegistration(cfg, s, r).registrations| != FRAME_BUFFER_COUNT
    ensures var all := outputs + [Response(r.bufferId, true, 0)];
            Inv(cfg, WithRegistration(cfg, s, r), all) && Responses(all) == Responses(outputs) + 1
  {
    RegistrationSeeds(cfg, s, outputs, r);
  }

  lemma AcceptedRegistrationSound(cfg: Config, s: Session, outputs: seq<Output>, r: Registration)
    requires LaunchAccepted(cfg) && Negotiating(cfg, s, outputs) && Echoed(s, outputs)
    requires r.bufferId < FRAME_BUFFER_COUNT && WithinSignedBounds(cfg, r)
    ensures var o := AcceptRegistration(cfg, s, r);
            && (o.error.None? ==>
                  && Inv(cfg, o.session, outputs + o.outputs)
                  && Responses(outputs + o.outputs) == Responses(outputs) + 1)
            && (o.error.Some? ==> !o.error.value.PoolFailure?)
  {
    if s.negotiatedSize.Some? && s.negotiatedSize.value != (r.width, r.height) {
    } else if r.bufferId in s.registrations {
    } else if |WithRegistration(cfg, s, r).registrations| == FRAME_BUFFER_COUNT {
      ThirdRegistrationSound(cfg, s, outputs, r);
    } else {
      EarlyRegistrationSound(cfg, s, outputs, r);
    }
  }

  lemma RegisterSound(cfg: Config, s: Session, outputs: seq<Output>, event: Event)
    requires Inv(cfg, s, outputs) && event.message.Register?
    ensures StepSound(cfg, s, outputs, event)
  {
    var r := event.message.registration;
    match Screen(cfg, s, event.message.size, r, event.env)
    case Fatal(_) =>
    case Refuse(kept) =>
      RefusedRegistrationSound(cfg, s, outputs, kept, r.bufferId);
    case Proceed(bound) =>
      AdapterIrrelevant(cfg, s, outputs, bound);
      AcceptedRegistrationSound(cfg, bound, outputs, r);
  }

  lemma AdapterIrrelevant(cfg: Config, s: Session, outputs: seq<Output>, s': Session)
    requires Negotiating(cfg, s, outputs) && Echoed(s, outputs) && s' == s.(adapter := s'.adapter)
    ensures Negotiating(cfg, s', outputs) && Echoed(s', outputs)
  {
    forall k <- s'.registrations ensures Seeded(cfg, s', outputs, k) {
      assert Seeded(cfg, s, outputs, k);
    }
  }

  lemma EchoGrows(s: Session, outputs: seq<Output>, id: u8, accepted: bool, value: u64)
    requires Echoed(s, outputs) && s.lastAcquire < value
    ensures Echoed(s.(lastAcquire := value), outputs + [Response(id, accepted, value)])
  {
    AppendOutput(outputs, Response(id, accepted, value));
    var echoed := EchoedValues(outputs);
    var grown := echoed + [value];
    forall i, j | 0 <= i < j < |grown| ensures grown[i] < grown[j] {
      if j == |echoed| {
        assert echoed[i] in echoed;
      }
    }
  }

  lemma BootstrapKeepsSeeds(cfg: Config, s: Session, outputs: seq<Output>, p: Publication, s': Session)
    requires Negotiating(cfg, s, outputs) && s.lastAcquire < p.acquireValue
    requires s' == s.(lastAcquire := p.acquireValue, registrations := s'.registrations)
    requires if p.bufferId in s.registrations
             then var (d, h) := s.registrations[p.bufferId];
                  s'.registrations == s.registrations[p.bufferId :=
                    (d.(acquireValue := p.acquireValue, releaseValue := p.acquireValue), h)]
             else s'.registrations == s.registrations
    ensures Negotiating(cfg, s', outputs + [Response(p.bufferId, p.bufferId in s.registrations, p.acquireValue)])
  {
    var response := Response(p.bufferId, p.bufferId in s.registrations, p.acquireValue);
    var all := outputs + [response];
    AppendOutput(outputs, response);
    assert s'.registrations.Keys == s.registrations.Keys;
    assert |s'.registrations| == |s'.registrations.Keys| && |s.registrations| == |s.registrations.Keys|;
    forall k ensures EverAccepted(all, k) <==> EverAccepted(outputs, k) || (response.accepted && k == p.bufferId) {
      EverAcceptedAppend(outputs, response, k);
    }
    forall k <- s'.registrations ensures Seeded(cfg, s', all, k) {
      StaysSeeded(cfg, s, outputs, p, s', all, k);
    }
  }

  /** A registration stays seeded when a post is recorded for it or for another one. */
  lemma StaysSeeded(
    cfg: Config, s: Session, outputs: seq<Output>, p: Publication, s': Session, all: seq<Output>, k: u8)
    requires k in s.registrations && k in s'.registrations && Seeded(cfg, s, outputs, k)
    requires s.lastAcquire < p.acquireValue == s'.lastAcquire && s'.negotiatedSize == s.negotiatedSize
    requires EverAccepted(all, k)
    requires if k == p.bufferId
             then var (d, h) := s.registrations[k];
                  s'.registrations[k] == (d.(acquireValue := p.acquireValue, releaseValue := p.acquireValue), h)
                  && LastAccepted(all, k) == p.acquireValue
             else s'.registrations[k] == s.registrations[k] && LastAccepted(all, k) == LastAccepted(outputs, k)
    ensures Seeded(cfg, s', all, k)
  {
  }

  lemma BootstrapPostSound(cfg: Config, s: Session, outputs: seq<Output>, event: Event)
    requires Inv(cfg, s, outputs) && Negotiating(cfg, s, outputs) && event.message.Post?
    ensures StepSound(cfg, s, outputs, event)
  {
    var p := event.message.publication;
    if event.message.size == PUBLISH_SIZE && s.lastAcquire < p.acquireValue {
      var o := Step(cfg, s, event);
      var accepted := p.bufferId in s.registrations;
      AppendOutput(outputs, Response(p.bufferId, accepted, p.acquireValue));
      EchoGrows(s, outputs, p.bufferId, accepted, p.acquireValue);
      BootstrapKeepsSeeds(cfg, s, outputs, p, o.session);
    }
  }

  /** Two output logs that differ only in what was reported, not in what was accepted. */
  ghost predicate SameStory(outputs: seq<Output>, longer: seq<Output>) {
    && (forall k :: LastAccepted(longer, k) == LastAccepted(outputs, k))
    && (forall k :: EverAccepted(outputs, k) ==> EverAccepted(longer, k))
    && AcceptedSinceReady(longer) == AcceptedSinceReady(outputs)
    && EchoedValues(longer) == EchoedValues(outputs)
    && Responses(longer) == Responses(outputs)
  }

  /** Reporting only ever appends a metrics file and remembers its frame count. */
  lemma ReportSound(s: Session, outputs: seq<Output>, metrics: Metrics, env: Env)
    requires s.lastReported == LastReported(outputs) <= metrics.produced
    ensures var (s', reports) := Report(s, metrics, env);
            && s' == s.(lastReported := LastReported(outputs + reports))
            && LastReported(outputs + reports) <= metrics.produced
            && SameStory(outputs, outputs + reports)
  {
    var (s', reports) := Report(s, metrics, env);
    if reports == [] {
      assert outputs + reports == outputs;
    } else {
      AppendOutput(outputs, reports[0]);
      assert outputs + reports == outputs + [reports[0]];
      forall k ensures EverAccepted(outputs, k) ==> EverAccepted(outputs + reports, k) {
        EverAcceptedAppend(outputs, reports[0], k);
      }
    }
  }

  /** A session whose pool has taken one more frame, once its response is sent. */
  lemma RunningAfterCycle(cfg: Config, s: Session, outputs: seq<Output>, before: seq<Output>, p: Publication)
    requires Running(cfg, s, outputs) && SameStory(outputs, before)
    requires s.lastAcquire < p.acquireValue && p.bufferId < FRAME_BUFFER_COUNT
    requires LastReported(before) <= SaturatingInc(s.pool.value.metrics.produced)
    ensures var after := Cycle(s.pool.value, p.bufferId, p.acquireValue).state;
            Running(cfg, s.(lastAcquire := p.acquireValue, pool := Some(after), lastReported := LastReported(before)),
                    before + [Response(p.bufferId, true, p.acquireValue)])
  {
    var pool := s.pool.value;
    var id := p.bufferId;
    assert Idle(cfg, s, outputs, pool.slots[id], id);
    CycleExact(pool, id, p.acquireValue);
    var after := Cycle(pool, id, p.acquireValue).state;
    var s' := s.(lastAcquire := p.acquireValue, pool := Some(after), lastReported := LastReported(before));
    var response := Response(id, true, p.acquireValue);
    AppendOutput(before, response);
    EverAcceptedAppend(before, response, 0);
    EverAcceptedAppend(before, response, 1);
    EverAcceptedAppend(before, response, 2);
    forall k <- after.slots ensures Idle(cfg, s', before + [response], after.slots[k], k) {
      assert Idle(cfg, s, outputs, pool.slots[k], k);
      if k != id {
        StaysIdle(cfg, s, s', outputs, before + [response], pool.slots[k], k);
      }
    }
  }

  lemma RunningPostSound(cfg: Config, s: Session, outputs: seq<Output>, event: Event)
    requires Inv(cfg, s, outputs) && Running(cfg, s, outputs) && event.message.Post?
    ensures StepSound(cfg, s, outputs, event)
  {
    var p := event.message.publication;
    if event.message.size == PUBLISH_SIZE && s.lastAcquire < p.acquireValue {
      var pool := s.pool.value;
      assert p.bufferId in pool.slots ==> Idle(cfg, s, outputs, pool.slots[p.bufferId], p.bufferId);
      CycleExact(pool, p.bufferId, p.acquireValue);
      if p.bufferId in pool.slots {
        AcceptedPostSound(cfg, s, outputs, event);
      }
    }
  }

  lemma AcceptedPostSound(cfg: Config, s: Session, outputs: seq<Output>, event: Event)
    requires Inv(cfg, s, outputs) && Running(cfg, s, outputs)
    requires event.message.Post? && event.message.size == PUBLISH_SIZE
    requires var p := event.message.publication;
             s.lastAcquire < p.acquireValue && p.bufferId < FRAME_BUFFER_COUNT
             && !Cycle(s.pool.value, p.bufferId, p.acquireValue).reply.Failed?
    ensures StepSound(cfg, s, outputs, event)
  {
    var p := event.message.publication;
    var pool := s.pool.value;
    var after := Cycle(pool, p.bufferId, p.acquireValue).state;
    assert after.metrics.produced == SaturatingInc(pool.metrics.produced) by {
      assert Idle(cfg, s, outputs, pool.slots[p.bufferId], p.bufferId);
      CycleExact(pool, p.bufferId, p.acquireValue);
    }
    TakenPostSound(cfg, s, outputs, p, event.env);
  }

  lemma TakenPostSound(cfg: Config, s: Session, outputs: seq<Output>, p: Publication, env: Env)
    requires Inv(cfg, s, outputs) && Running(cfg, s, outputs)
    requires s.lastAcquire < p.acquireValue && p.bufferId < FRAME_BUFFER_COUNT
    requires var after := Cycle(s.pool.value, p.bufferId, p.acquireValue).state;
             after.metrics.produced == SaturatingInc(s.pool.value.metrics.produced)
    ensures var after := Cycle(s.pool.value, p.bufferId, p.acquireValue).state;
            var o := PostTaken(s.(lastAcquire := p.acquireValue, pool := Some(after)), after.metrics, p, env);
            Inv(cfg, o.session, outputs + o.outputs) && Responses(outputs + o.outputs) == Responses(outputs) + 1
  {
    var after := Cycle(s.pool.value, p.bufferId, p.acquireValue).state;
    var seen := s.(lastAcquire := p.acquireValue, pool := Some(after));
    var (reported, reports) := Report(seen, after.metrics, env);
    ReportSound(seen, outputs, after.metrics, env);
    var before := outputs + reports;
    var response := Response(p.bufferId, true, p.acquireValue);
    assert outputs + PostTaken(seen, after.metrics, p, env).outputs == before + [response];
    AppendOutput(before, response);
    EchoGrows(s, before, p.bufferId, true, p.acquireValue);
    RunningAfterCycle(cfg, s, outputs, before, p);
  }

  lemma StepKeepsInv(cfg: Config, s: Session, outputs: seq<Output>, event: Event)
    requires Inv(cfg, s, outputs)
    ensures StepSound(cfg, s, outputs, event)
  {
    match event.message
    case Register(_, _) => RegisterSound(cfg, s, outputs, event);
    case Post(_, _) =>
      if Negotiating(cfg, s, outputs) {
        BootstrapPostSound(cfg, s, outputs, event);
      } else {
        RunningPostSound(cfg, s, outputs, event);
      }
    case Unsupported(_) =>
  }

  // ---------------------------------------------------------------------------------------------
  // Whole sessions
  // ---------------------------------------------------------------------------------------------

  /** The error of a run is never a pool refusal, except for a post naming a buffer that does not exist. */
  ghost predicate NoPoolRefusal(o: Outcome) {
    o.error.Some? && o.error.value.PoolFailure? ==>
      o.error.value.error.UnknownBuffer? && o.error.value.error.id >= FRAME_BUFFER_COUNT
  }

  lemma {:induction false} RunKeepsInv(cfg: Config, s: Session, outputs: seq<Output>, events: seq<Event>)
    requires Inv(cfg, s, outputs)
    ensures var o := Run(cfg, s, outputs, events);
            && NoPoolRefusal(o)
            && (o.error.None? ==>
                  Inv(cfg, o.session, o.outputs) && Responses(o.outputs) == Responses(outputs) + |events|)
    decreases |events|
  {
    if events != [] {
      StepKeepsInv(cfg, s, outputs, events[0]);
      var o := Step(cfg, s, events[0]);
      if o.error.None? {
        RunKeepsInv(cfg, o.session, outputs + o.outputs, events[1..]);
      }
    }
  }

  /**
   Broker refinement. Over every message sequence and every platform behaviour: no pool call is ever
   refused for ownership or monotonicity; while the session lives, every message has had exactly one
   response, the posted values echoed are strictly increasing, and the invariant holds, so each
   slot is idle and carries the value last accepted for its buffer, whether that post came before or
   after the pool existed.
   */
  lemma SessionRefinesPool(cfg: Config, events: seq<Event>)
    requires LaunchAccepted(cfg)
    ensures var o := Run(cfg, INITIAL, [], events);
            && NoPoolRefusal(o)
            && (o.error.None? ==>
                  && Inv(cfg, o.session, o.outputs)
                  && Responses(o.outputs) == |events|
                  && Increasing(EchoedValues(o.outputs)))
  {
    assert Negotiating(cfg, INITIAL, []);
    RunKeepsInv(cfg, INITIAL, [], events);
  }

  /** Reporting and responding leave the pool alone. */
  lemma TakenPostShape(s: Session, metrics: Metrics, p: Publication, env: Env)
    ensures var o := PostTaken(s, metrics, p, env);
            && o.session == s.(lastReported := o.session.lastReported)
            && Response(p.bufferId, true, p.acquireValue) in o.outputs
            && (o.error.None? <==> (s.published ==> env.markerPresent))
  {
  }

  /** One slot of a pool holds a new value, and one more frame is counted. */
  ghost predicate OneSlotChanged(before: PoolState, after: PoolState, id: u8, value: u64) {
    && after.slots.Keys == before.slots.Keys && id in after.slots
    && after.slots[id].lastAcquire == after.slots[id].lastRelease == value
    && (forall k <- before.slots :: k != id ==> after.slots[k] == before.slots[k])
    && after.metrics.produced == SaturatingInc(before.metrics.produced)
  }

  lemma CycleChangesOneSlot(cfg: Config, s: Session, outputs: seq<Output>, id: u8, value: u64)
    requires Running(cfg, s, outputs) && s.lastAcquire < value
    ensures !Cycle(s.pool.value, id, value).reply.Failed? <==> id < FRAME_BUFFER_COUNT
    ensures id < FRAME_BUFFER_COUNT ==> OneSlotChanged(s.pool.value, Cycle(s.pool.value, id, value).state, id, value)
  {
    assert id in s.pool.value.slots ==> Idle(cfg, s, outputs, s.pool.value.slots[id], id);
    CycleExact(s.pool.value, id, value);
  }

  /**
   A live session with a pool survives exactly the posts with a known buffer and a new value while the
   marker is present. The response goes out before the marker is looked for.
   */
  lemma PostAcceptedExactly(cfg: Config, s: Session, outputs: seq<Output>, p: Publication, env: Env)
    requires Inv(cfg, s, outputs) && s.pool.Some?
    ensures var o := Step(cfg, s, Event(Post(PUBLISH_SIZE, p), env));
            && (o.error.None? <==>
                  p.bufferId < FRAME_BUFFER_COUNT && s.lastAcquire < p.acquireValue && env.markerPresent)
            && (o.error.None? ==>
                  && Response(p.bufferId, true, p.acquireValue) in o.outputs
                  && o.session.lastAcquire == p.acquireValue
                  && o.session.pool.Some?
                  && OneSlotChanged(s.pool.value, o.session.pool.value, p.bufferId, p.acquireValue))
  {
    if s.lastAcquire < p.acquireValue {
      CycleChangesOneSlot(cfg, s, outputs, p.bufferId, p.acquireValue);
      var after := Cycle(s.pool.value, p.bufferId, p.acquireValue).state;
      TakenPostShape(s.(lastAcquire := p.acquireValue, pool := Some(after)), after.metrics, p, env);
    }
  }

  /** What a registration has to bring along to be imported. */
  predicate Importable(cfg: Config, s: Session, r: Registration, env: Env) {
    && UsableHandle(r.memoryHandle) && r.bufferId < FRAME_BUFFER_COUNT && WithinSignedBounds(cfg, r)
    && r.luidValid && (if s.adapter.Some? then s.adapter.value == r.luid else env.adapterOpens)
    && SupportedVulkanFormat(r.imageFormat) && env.importSucceeds
  }

  lemma ScreenExactly(cfg: Config, s: Session, r: Registration, env: Env)
    requires s.pool.None?
    ensures var v := Screen(cfg, s, REGISTER_SIZE, r, env);
            && (v.Proceed? <==> Importable(cfg, s, r, env))
            && (v.Proceed? ==> v.session == s.(adapter := Some(r.luid)))
  {
  }

  lemma AdmittedExactly(cfg: Config, s: Session, outputs: seq<Output>, r: Registration)
    requires LaunchAccepted(cfg) && Negotiating(cfg, s, outputs) && Echoed(s, outputs)
    requires r.bufferId < FRAME_BUFFER_COUNT && WithinSignedBounds(cfg, r)
    ensures var o := AcceptRegistration(cfg, s, r);
            && (o.error.None? <==> (s.negotiatedSize.Some? ==> s.negotiatedSize.value == (r.width, r.height))
                                   && r.bufferId !in s.registrations)
            && (o.error.None? ==> o.outputs != [] && o.outputs[0] == Response(r.bufferId, true, 0))
            && (o.error.None? && |s.registrations| == 2 ==> o.session.pool.Some? && o.session.published)
            && (o.error.None? && |s.registrations| < 2 ==> o.session == WithRegistration(cfg, s, r))
  {
    if r.bufferId !in s.registrations {
      assert |WithRegistration(cfg, s, r).registrations| == |s.registrations| + 1;
      if |s.registrations| == 2 && (s.negotiatedSize.Some? ==> s.negotiatedSize.value == (r.width, r.height)) {
        RegistrationSeeds(cfg, s, outputs, r);
        var added := WithRegistration(cfg, s, r);
        ThreeKeys(added.registrations);
        PoolCreationSound(cfg, added, outputs + [Response(r.bufferId, true, 0)], r.bufferId);
      }
    }
  }

  /** An accepting response comes first among what a registration sends. */
  predicate Accepts(o: Outcome, id: u8) {
    o.error.None? && o.outputs != [] && o.outputs[0] == Response(id, true, 0)
  }

  /**
   While a session negotiates, a registration is accepted and survived exactly when it can be imported, has
   the size of the others, is the first for its buffer, and the marker is there if it is the third; the
   response goes out before the marker is looked for. The third creates the pool; the first two are
   recorded next to what is already there, with the common size and the adapter.
   */
  lemma RegistrationAcceptedExactly(cfg: Config, s: Session, outputs: seq<Output>, r: Registration, env: Env)
    requires Inv(cfg, s, outputs) && s.pool.None?
    ensures var o := Step(cfg, s, Event(Register(REGISTER_SIZE, r), env));
            && (Accepts(o, r.bufferId) <==>
                  && Importable(cfg, s, r, env)
                  && (s.negotiatedSize.Some? ==> s.negotiatedSize.value == (r.width, r.height))
                  && r.bufferId !in s.registrations
                  && (|s.registrations| == 2 ==> env.markerPresent))
            && (Accepts(o, r.bufferId) ==>
                  if |s.registrations| == 2 then o.session.pool.Some?
                  else o.session == WithRegistration(cfg, s.(adapter := Some(r.luid)), r))
  {
    ScreenExactly(cfg, s, r, env);
    if Importable(cfg, s, r, env) {
      var bound := s.(adapter := Some(r.luid));
      AdapterIrrelevant(cfg, s, outputs, bound);
      AdmittedExactly(cfg, bound, outputs, r);
    }
  }

  /**
   The pool appears exactly when all three buffers have been accepted; its slots are then those three,
   idle, with the values last accepted for them, and of one size, generation and transport.
   */
  lemma PoolExactlyAfterThree(cfg: Config, events: seq<Event>)
    requires LaunchAccepted(cfg)
    requires Run(cfg, INITIAL, [], events).error.None?
    ensures var o := Run(cfg, INITIAL, [], events);
            o.session.pool.Some? <==> forall id: u8 :: id < FRAME_BUFFER_COUNT ==> EverAccepted(o.outputs, id)
    ensures var o := Run(cfg, INITIAL, [], events);
            o.session.pool.Some? ==>
              && o.session.pool.value.slots.Keys == {0, 1, 2}
              && forall id <- o.session.pool.value.slots ::
                   Idle(cfg, o.session, o.outputs, o.session.pool.value.slots[id], id)
  {
    SessionRefinesPool(cfg, events);
    var s := Run(cfg, INITIAL, [], events).session;
    if s.pool.None? {
      TwoAtMost(s.registrations);
    }
  }

  lemma TwoAtMost(m: map<u8, (Descriptor, Handle)>)
    requires |m| < 3
    ensures 0 !in m || 1 !in m || 2 !in m
  {
    var all: set<u8> := {0, 1, 2};
    assert |all| == 3;
    assert m.Keys == m.Keys * all + (m.Keys - all);
    assert |m.Keys * all| < 3;
    assert m.Keys * all != all;
  }

  // ---------------------------------------------------------------------------------------------
  // The session loop
  // ---------------------------------------------------------------------------------------------

  class FrameBroker {
    const cfg: Config
    var adapter: Option<seq<u8>>
    var registrations: map<u8, (Descriptor, Handle)>
    var negotiatedSize: Option<(u32, u32)>
    var pool: FramePool?
    var published: bool
    var lastAcquire: u64
    var lastReported: u64
    var outputs: seq<Output>

    ghost function State(): Session
      reads this, pool
    {
      Session(adapter, registrations, negotiatedSize, if pool == null then None else Some(pool.State()),
              published, lastAcquire, lastReported)
    }

    constructor (cfg: Config)
      ensures this.cfg == cfg && State() == INITIAL && outputs == [] && pool == null
    {
      this.cfg := cfg;
      adapter, registrations, negotiatedSize, pool := None, map[], None, null;
      published, lastAcquire, lastReported, outputs := false, 0, 0, [];
    }

    method Respond(id: u8, accepted: bool, value: u64)
      modifies this`outputs
      ensures outputs == old(outputs) + [Response(id, accepted, value)]
    {
      outputs := outputs + [Response(id, accepted, value)];
    }

    method FinishNegotiation(id: u8) returns (error: Option<SessionError>)
      requires pool == null
      modifies this
      ensures pool == null || fresh(pool)
      ensures var o := Negotiated(cfg, old(State()), id);
              State() == o.session && error == o.error && old(outputs) + o.outputs == outputs
    {
      Respond(id, true, 0);
      var descriptors := InKeyOrder(registrations, 0);
      registrations := map[];
      var created := FramePool.Create(SessionProbe(cfg), descriptors);
      if created.Failure? {
        return Some(PoolFailure(created.error));
      }
      pool := created.value;
      outputs := outputs + [MetricsFile(pool.metrics)];
      lastReported := 0;
      outputs := outputs + [ReadyMarker];
      published := true;
      error := None;
    }

    /** Records an imported buffer and finishes the negotiation with the third one. */
    method Admit(r: Registration) returns (error: Option<SessionError>)
      requires pool == null
      modifies this
      ensures pool == null || fresh(pool)
      ensures var o := AcceptRegistration(cfg, old(State()), r);
              State() == o.session && error == o.error && outputs == old(outputs) + o.outputs
    {
      if negotiatedSize.Some? {
        if negotiatedSize.value != (r.width, r.height) {
          return Some(SizeChanged);
        }
      } else {
        negotiatedSize := Some((r.width, r.height));
      }
      var duplicate := r.bufferId in registrations;
      registrations := registrations[r.bufferId := (DescriptorFor(cfg, r), IMPORTED)];
      if duplicate {
        return Some(DuplicateRegistration);
      }
      if |registrations| == FRAME_BUFFER_COUNT {
        error := FinishNegotiation(r.bufferId);
      } else {
        Respond(r.bufferId, true, 0);
        error := None;
      }
    }

    /** The checks a registration has to pass before its format is looked at. */
    method Examine(size: u32, r: Registration) returns (error: Option<SessionError>)
      ensures error == Unacceptable(cfg, pool != null, size, r)
    {
      if size != REGISTER_SIZE {
        return Some(BadSize);
      }
      if pool != null {
        return Some(RegisteredTooLate);
      }
      if !UsableHandle(r.memoryHandle) {
        return Some(InvalidHandle);
      }
      if r.bufferId >= FRAME_BUFFER_COUNT {
        return Some(BufferOutOfRange);
      }
      if !WithinSignedBounds(cfg, r) {
        return Some(OutsideSignedBounds);
      }
      error := None;
    }

    method Register(size: u32, r: Registration, env: Env) returns (error: Option<SessionError>)
      modifies this
      ensures pool == old(pool) || fresh(pool)
      ensures var o := RegisterStep(cfg, old(State()), size, r, env);
              State() == o.session && error == o.error && outputs == old(outputs) + o.outputs
    {
      var unacceptable := Examine(size, r);
      if unacceptable.Some? {
        return unacceptable;
      }
      if !SupportedFrameFormat(r) {
        Respond(r.bufferId, false, 0);
        return None;
      }
      if !r.luidValid {
        return Some(NoLuid);
      }
      if adapter.Some? {
        if adapter.value != r.luid {
          return Some(AdapterChanged);
        }
      } else if env.adapterOpens {
        adapter := Some(r.luid);
      } else {
        return Some(AdapterUnavailable);
      }
      if !SupportedVulkanFormat(r.imageFormat) || !env.importSucceeds {
        Respond(r.bufferId, false, 0);
        return None;
      }
      error := Admit(r);
      if error.None? && published && !env.markerPresent {
        error := Some(MarkerMissing);
      }
    }

    method DrivePool(live: FramePool, id: u8, value: u64) returns (refused: Option<FrameError>)
      modifies live
      ensures var o := Cycle(old(live.State()), id, value);
              live.State() == o.state && (refused == if o.reply.Failed? then Some(o.reply.error) else None)
    {
      var acquired := live.ProducerAcquire(id);
      if acquired.Failure? {
        return Some(acquired.error);
      }
      var posted := live.ProducerPublish(id, value);
      if posted.Failure? {
        return Some(posted.error);
      }
      var imported := live.ConsumerImported(id);
      if imported.Failure? {
        return Some(imported.error);
      }
      var released := live.ConsumerRelease(id, value, true);
      refused := if released.Failure? then Some(released.error) else None;
    }

    /** The metrics file that is due after a second, and the response to a post the pool has taken. */
    method ReportAndRespond(metrics: Metrics, p: Publication, env: Env) returns (error: Option<SessionError>)
      modifies this`lastReported, this`outputs
      ensures var o := PostTaken(old(State()), metrics, p, env);
              State() == o.session && error == o.error && outputs == old(outputs) + o.outputs
    {
      if env.elapsedMs >= 1000 {
        var frames := Interval(metrics.produced, lastReported);
        lastReported := metrics.produced;
        outputs := outputs + [MetricsFile(metrics.(fpsMilli := FpsMilli(frames, env.elapsedMs)))];
      }
      Respond(p.bufferId, true, p.acquireValue);
      error := if published && !env.markerPresent then Some(MarkerMissing) else None;
    }

    /** A post once the pool exists. */
    method PublishToPool(live: FramePool, p: Publication, env: Env) returns (error: Option<SessionError>)
      requires live == pool
      modifies this, live
      ensures pool == old(pool)
      ensures var o := PostToPool(old(State()), old(live.State()), p, env);
              State() == o.session && error == o.error && outputs == old(outputs) + o.outputs
    {
      var refused := DrivePool(live, p.bufferId, p.acquireValue);
      if refused.Some? {
        return Some(PoolFailure(refused.value));
      }
      lastAcquire := p.acquireValue;
      error := ReportAndRespond(live.metrics, p, env);
    }

    /** A post that arrives before the negotiation is complete. */
    method PublishEarly(p: Publication, env: Env) returns (error: Option<SessionError>)
      requires pool == null
      modifies this
      ensures pool == null
      ensures var o := PostEarly(old(State()), p, env);
              State() == o.session && error == o.error && outputs == old(outputs) + o.outputs
    {
      if p.bufferId !in registrations {
        Respond(p.bufferId, false, p.acquireValue);
        lastAcquire := p.acquireValue;
        return None;
      }
      var (d, h) := registrations[p.bufferId];
      registrations := registrations[p.bufferId :=
        (d.(acquireValue := p.acquireValue, releaseValue := p.acquireValue), h)];
      lastAcquire := p.acquireValue;
      Respond(p.bufferId, true, p.acquireValue);
      error := if published && !env.markerPresent then Some(MarkerMissing) else None;
    }

    method Publish(size: u32, p: Publication, env: Env) returns (error: Option<SessionError>)
      modifies this, pool
      ensures pool == old(pool)
      ensures var o := PostStep(old(State()), size, p, env);
              State() == o.session && error == o.error && outputs == old(outputs) + o.outputs
    {
      if size != PUBLISH_SIZE {
        return Some(BadSize);
      }
      if p.acquireValue <= lastAcquire {
        return Some(NotMonotonic);
      }
      if pool != null {
        error := PublishToPool(pool, p, env);
      } else {
        error := PublishEarly(p, env);
      }
    }

    /** The session loop, over the messages that arrive before the pipe closes. */
    method Serve(events: seq<Event>) returns (error: Option<SessionError>)
      requires State() == INITIAL && outputs == [] && pool == null
      modifies this
      ensures !LaunchAccepted(cfg) ==> error == Some(InvalidLaunch)
      ensures LaunchAccepted(cfg) ==> error == Run(cfg, INITIAL, [], events).error
      ensures LaunchAccepted(cfg) ==> State() == Run(cfg, INITIAL, [], events).session
      ensures LaunchAccepted(cfg) ==> outputs == Run(cfg, INITIAL, [], events).outputs
    {
      if !LaunchAccepted(cfg) {
        return Some(InvalidLaunch);
      }
      for i := 0 to |events|
        invariant pool == null || fresh(pool)
        invariant Run(cfg, State(), outputs, events[i..]) == Run(cfg, INITIAL, [], events)
      {
        assert events[i..][0] == events[i] && events[i..][1..] == events[i + 1..];
        match events[i].message {
          case Register(size, r) => error := Register(size, r, events[i].env);
          case Post(size, p) => error := Publish(size, p, events[i].env);
          case Unsupported(_) => error := Some(UnsupportedMessage);
        }
        if error.Some? {
          return;
        }
      }
      error := None;
    }
  }
}

/**
 What the frame session answers to each message, in terms of the message itself: which registrations and
 posts it survives, which it refuses and goes on, and exactly what it sends and records.
 */
module FrameVerdicts {
  import opened Wrappers
  import opened Bytes
  import opened FramePools
  import opened FrameBrokers

  // ---------------------------------------------------------------------------------------------
  // Registrations
  // ---------------------------------------------------------------------------------------------

  /** A registration that is well put together, whatever its format. */
  predicate Sound(cfg: Config, r: Registration) {
    && 0 < r.memoryHandle < 0x8000_0000_0000_0000
    && r.bufferId in {0, 1, 2}
    && 320 <= r.width <= cfg.maxExtent && 320 <= r.height <= cfg.maxExtent
    && (r.strideBytes >= 4 * r.width || r.strideBytes == 0xFFFF_FFFF)
  }

  /** The format codes: two of virgl, four of Vulkan. */
  predicate Displayable(r: Registration) {
    r.virglFormat in {1, 2} || r.imageFormat in {37, 43, 44, 50}
  }

  /** The registration names the adapter in use, or one that opens if there is none yet. */
  predicate OnAdapter(s: Session, r: Registration, env: Env) {
    r.luidValid && (s.adapter == Some(r.luid) || (s.adapter == None && env.adapterOpens))
  }

  predicate Imports(r: Registration, env: Env) {
    r.imageFormat in {37, 43, 44, 50} && env.importSucceeds
  }

  predicate FirstOfSize(s: Session, r: Registration) {
    r.bufferId !in s.registrations && (s.negotiatedSize == None || s.negotiatedSize == Some((r.width, r.height)))
  }

  /**
   While a session negotiates it survives exactly the sound registrations that either have a format it
   does not know, or are on its adapter and then either cannot be imported or are accepted.
   */
  lemma RegistrationSurvivesExactly(
    cfg: Config, s: Session, outputs: seq<Output>, size: u32, r: Registration, env: Env)
    requires Inv(cfg, s, outputs) && s.pool.None?
    ensures Step(cfg, s, Event(Register(size, r), env)).error.None? <==>
            && size == 72 && Sound(cfg, r)
            && (Displayable(r) ==>
                  && OnAdapter(s, r, env)
                  && (Imports(r, env) ==>
                        FirstOfSize(s, r) && (|s.registrations| == 2 ==> env.markerPresent)))
  {
    if size == 72 {
      SoundExactly(cfg, r);
      RegistrationAcceptedExactly(cfg, s, outputs, r, env);
      ScreenExactly(cfg, s, r, env);
      if Importable(cfg, s, r, env) {
        SurvivesOnlyAccepted(cfg, s, outputs, r, env);
      }
    }
  }

  lemma SoundExactly(cfg: Config, r: Registration)
    ensures Sound(cfg, r) <==> UsableHandle(r.memoryHandle) && r.bufferId < 3 && WithinSignedBounds(cfg, r)
  {
  }

  lemma SurvivesOnlyAccepted(cfg: Config, s: Session, outputs: seq<Output>, r: Registration, env: Env)
    requires Inv(cfg, s, outputs) && s.pool.None? && Importable(cfg, s, r, env)
    ensures var o := Step(cfg, s, Event(Register(REGISTER_SIZE, r), env)); o.error.None? ==> Accepts(o, r.bufferId)
  {
    var bound := s.(adapter := Some(r.luid));
    ScreenExactly(cfg, s, r, env);
    AdapterIrrelevant(cfg, s, outputs, bound);
    AdmittedExactly(cfg, bound, outputs, r);
  }

  /** A format the session does not know is refused, and nothing changes. */
  lemma UnknownFormatIsRefused(cfg: Config, s: Session, r: Registration, env: Env)
    requires s.pool.None? && Sound(cfg, r) && !Displayable(r)
    ensures Step(cfg, s, Event(Register(72, r), env)) == Outcome(s, [Response(r.bufferId, false, 0)], None)
  {
  }

  /** An image that cannot be imported is refused, and only the adapter is kept. */
  lemma FailedImportIsRefused(cfg: Config, s: Session, r: Registration, env: Env)
    requires s.pool.None? && Sound(cfg, r) && Displayable(r) && OnAdapter(s, r, env) && !Imports(r, env)
    ensures Step(cfg, s, Event(Register(72, r), env))
         == Outcome(s.(adapter := Some(r.luid)), [Response(r.bufferId, false, 0)], None)
  {
  }

  /** What a session keeps about a buffer it has accepted and no post has named yet. */
  function Recorded(cfg: Config, r: Registration): (Descriptor, Handle) {
    (Descriptor(2, cfg.instanceId, cfg.generation, r.bufferId, VulkanWin32, Bgra8Srgb,
                r.width, r.height, r.strideBytes, 0, 0, 1),
     Handle(VulkanWin32, 1))
  }

  predicate Acceptable(cfg: Config, s: Session, r: Registration, env: Env) {
    Sound(cfg, r) && Displayable(r) && OnAdapter(s, r, env) && Imports(r, env) && FirstOfSize(s, r)
  }

  /** The first two accepted buffers are recorded and answered. */
  lemma EarlyBufferIsRecorded(cfg: Config, s: Session, outputs: seq<Output>, r: Registration, env: Env)
    requires Inv(cfg, s, outputs) && s.pool.None? && Acceptable(cfg, s, r, env) && |s.registrations| < 2
    ensures Step(cfg, s, Event(Register(72, r), env))
         == Outcome(s.(adapter := Some(r.luid), negotiatedSize := Some((r.width, r.height)),
                       registrations := s.registrations[r.bufferId := Recorded(cfg, r)]),
                    [Response(r.bufferId, true, 0)], None)
  {
    var added := WithRegistration(cfg, s.(adapter := Some(r.luid)), r);
    assert |added.registrations| == |s.registrations| + 1;
  }

  /** The slot a recorded buffer starts with. */
  function Seed(recorded: (Descriptor, Handle)): Slot {
    Slot(recorded.0, recorded.1, Available, recorded.0.acquireValue, recorded.0.releaseValue)
  }

  function Seeds(registrations: map<u8, (Descriptor, Handle)>): map<u8, Slot> {
    map id | id in registrations :: Seed(registrations[id])
  }

  /**
   The third accepted buffer is answered first; then the pool is created from all three, empty metrics
   are written and the marker is set, which must still be there at the end of the step.
   */
  lemma ThirdBufferMakesPool(cfg: Config, s: Session, outputs: seq<Output>, r: Registration, env: Env)
    requires Inv(cfg, s, outputs) && s.pool.None? && Acceptable(cfg, s, r, env) && |s.registrations| == 2
    ensures var o := Step(cfg, s, Event(Register(72, r), env));
            var all := s.registrations[r.bufferId := Recorded(cfg, r)];
            var empty := Metrics(cfg.generation, 0, 0, 0, 0, 0);
            && o.outputs == [Response(r.bufferId, true, 0), MetricsFile(empty), ReadyMarker]
            && o.error == (if env.markerPresent then None else Some(MarkerMissing))
            && o.session == s.(adapter := Some(r.luid), negotiatedSize := Some((r.width, r.height)),
                               registrations := map[], published := true, lastReported := 0, pool := o.session.pool)
            && o.session.pool == Some(PoolState(cfg.generation, Seeds(all), empty))
  {
    var bound := s.(adapter := Some(r.luid));
    AdapterIrrelevant(cfg, s, outputs, bound);
    RegistrationSeeds(cfg, bound, outputs, r);
    var added := WithRegistration(cfg, bound, r);
    assert |added.registrations| == |s.registrations| + 1;
    ThreeKeys(added.registrations);
    PoolOfThree(cfg, added, outputs + [Response(r.bufferId, true, 0)]);
    ThirdStep(cfg, s, r, env, added);
    assert added.registrations == s.registrations[r.bufferId := Recorded(cfg, r)];
  }

  lemma ThirdStep(cfg: Config, s: Session, r: Registration, env: Env, added: Session)
    requires s.pool.None? && Acceptable(cfg, s, r, env)
    requires added == WithRegistration(cfg, s.(adapter := Some(r.luid)), r) && |added.registrations| == 3
    ensures Step(cfg, s, Event(Register(72, r), env)) == CheckMarker(Negotiated(cfg, added, r.bufferId), env)
  {
    SoundExactly(cfg, r);
    ScreenExactly(cfg, s, r, env);
  }

  lemma PoolOfThree(cfg: Config, s: Session, outputs: seq<Output>)
    requires LaunchAccepted(cfg) && s.registrations.Keys == {0, 1, 2}
    requires forall id <- s.registrations :: Seeded(cfg, s, outputs, id)
    ensures CreateState(SessionProbe(cfg), InKeyOrder(s.registrations, 0))
         == Success(PoolState(cfg.generation, Seeds(s.registrations), Metrics(cfg.generation, 0, 0, 0, 0, 0)))
  {
    var buffers := InKeyOrder(s.registrations, 0);
    NegotiationSucceeds(cfg, s, outputs);
    ThreeInKeyOrder(s.registrations);
    OwnIds(cfg, s, outputs);
    var pool := CreateState(SessionProbe(cfg), buffers).value;
    CreatedSlots(SessionProbe(cfg), buffers, pool);
    SlotsOfThree(s.registrations, buffers, pool.slots);
    assert pool.metrics == Metrics(cfg.generation, 0, 0, 0, 0, 0);
  }

  lemma OwnIds(cfg: Config, s: Session, outputs: seq<Output>)
    requires forall id <- s.registrations :: Seeded(cfg, s, outputs, id)
    ensures forall id <- s.registrations :: s.registrations[id].0.bufferId == id
  {
    forall id <- s.registrations ensures s.registrations[id].0.bufferId == id {
      assert Seeded(cfg, s, outputs, id);
    }
  }

  lemma CreatedSlots(probe: Probe, buffers: Buffers, pool: PoolState)
    requires CreateState(probe, buffers) == Success(pool)
    ensures |buffers| == 3
    ensures forall i :: 0 <= i < 3 ==> buffers[i].0.bufferId in pool.slots
                                       && pool.slots[buffers[i].0.bufferId] == FreshSlot(buffers[i].0, buffers[i].1)
  {
    CreateExact(probe, buffers);
    forall i | 0 <= i < 3 ensures buffers[i].0.bufferId in pool.slots {
      assert buffers[i].0.bufferId in Ids(buffers);
    }
  }

  lemma SlotsOfThree(registrations: map<u8, (Descriptor, Handle)>, buffers: Buffers, slots: map<u8, Slot>)
    requires registrations.Keys == slots.Keys == {0, 1, 2}
    requires buffers == [registrations[0], registrations[1], registrations[2]]
    requires forall i: u8 :: i < 3 ==> registrations[i].0.bufferId == i
    requires forall i :: 0 <= i < 3 ==> buffers[i].0.bufferId in slots
                                        && slots[buffers[i].0.bufferId] == FreshSlot(buffers[i].0, buffers[i].1)
    ensures slots == Seeds(registrations)
  {
    assert slots[buffers[0].0.bufferId] == slots[0];
    assert slots[buffers[1].0.bufferId] == slots[1];
    assert slots[buffers[2].0.bufferId] == slots[2];
  }

  /** Why a registration ends a session that negotiates: the first objection in this order. */
  lemma RegistrationErrorsExactly(
    cfg: Config, s: Session, outputs: seq<Output>, size: u32, r: Registration, env: Env)
    requires Inv(cfg, s, outputs) && s.pool.None?
    requires Step(cfg, s, Event(Register(size, r), env)).error.Some?
    ensures Step(cfg, s, Event(Register(size, r), env)).error.value ==
            if size != 72 then BadSize
            else if r.memoryHandle == 0 || r.memoryHandle >= 0x8000_0000_0000_0000 then InvalidHandle
            else if r.bufferId > 2 then BufferOutOfRange
            else if !Sound(cfg, r) then OutsideSignedBounds
            else if !r.luidValid then NoLuid
            else if s.adapter.Some? && s.adapter.value != r.luid then AdapterChanged
            else if s.adapter.None? && !env.adapterOpens then AdapterUnavailable
            else if s.negotiatedSize.Some? && s.negotiatedSize.value != (r.width, r.height) then SizeChanged
            else if r.bufferId in s.registrations then DuplicateRegistration
            else MarkerMissing
  {
    SoundExactly(cfg, r);
    RegistrationSurvivesExactly(cfg, s, outputs, size, r, env);
    if size == 72 && Acceptable(cfg, s, r, env) {
      if |s.registrations| == 2 {
        ThirdBufferMakesPool(cfg, s, outputs, r, env);
      } else {
        EarlyBufferIsRecorded(cfg, s, outputs, r, env);
      }
    }
  }

  /** Once there is a pool, no registration is taken any more. */
  lemma LateRegistrationEndsSession(cfg: Config, s: Session, size: u32, r: Registration, env: Env)
    requires s.pool.Some?
    ensures Step(cfg, s, Event(Register(size, r), env))
         == Outcome(s, [], Some(if size != 72 then BadSize else RegisteredTooLate))
  {
  }

  // ---------------------------------------------------------------------------------------------
  // Posts
  // ---------------------------------------------------------------------------------------------

  /** Before there is a pool, a new value is recorded for a buffer that is known and refused for another. */
  lemma EarlyPostExactly(cfg: Config, s: Session, outputs: seq<Output>, size: u32, p: Publication, env: Env)
    requires Inv(cfg, s, outputs) && s.pool.None?
    ensures var o := Step(cfg, s, Event(Post(size, p), env));
            if size != 28 then o == Outcome(s, [], Some(BadSize))
            else if p.acquireValue <= s.lastAcquire then o == Outcome(s, [], Some(NotMonotonic))
            else if p.bufferId in s.registrations then
              var (d, h) := s.registrations[p.bufferId];
              var seeded := (d.(acquireValue := p.acquireValue, releaseValue := p.acquireValue), h);
              o == Outcome(s.(lastAcquire := p.acquireValue, registrations := s.registrations[p.bufferId := seeded]),
                           [Response(p.bufferId, true, p.acquireValue)], None)
            else
              o == Outcome(s.(lastAcquire := p.acquireValue), [Response(p.bufferId, false, p.acquireValue)], None)
  {
  }

  /** Frames since the last report, per thousand seconds, in 32 bits; an interval has at least a millisecond. */
  function Rate(frames: nat, elapsedMs: nat): u32
    requires elapsedMs >= 1000
  {
    Min(frames * 1_000_000 / elapsedMs, 0xFFFF_FFFF)
  }

  /** The metrics after one more frame of a session that drops none. */
  function OneMore(generation: u64, accepted: nat, fpsMilli: u32): Metrics {
    Metrics(generation, Capped(accepted + 1), Capped(accepted + 1), Capped(accepted + 1), 0, fpsMilli)
  }

  /**
   With a pool, a new value for a buffer is answered and counted. A second after the last report or later
   the metrics are written before the answer: all frames accepted since the pool was created, and their
   rate since the last report. What was accepted and reported is read off what the session has sent.
   */
  lemma PostIsCountedAndReported(
    cfg: Config, s: Session, outputs: seq<Output>, p: Publication, env: Env)
    requires Inv(cfg, s, outputs) && s.pool.Some?
    requires p.bufferId in {0, 1, 2} && s.lastAcquire < p.acquireValue
    ensures var o := Step(cfg, s, Event(Post(28, p), env));
            var accepted := AcceptedSinceReady(outputs);
            var answer := Response(p.bufferId, true, p.acquireValue);
            && o.error == (if env.markerPresent then None else Some(MarkerMissing))
            && o.session.lastAcquire == p.acquireValue
            && o.session.pool.Some? && o.session.pool.value.metrics == OneMore(cfg.generation, accepted, 0)
            && (env.elapsedMs < 1000 ==> o.outputs == [answer])
            && (env.elapsedMs >= 1000 ==>
                  var rate := Rate(Capped(accepted + 1) - LastReported(outputs), env.elapsedMs);
                  o.outputs == [MetricsFile(OneMore(cfg.generation, accepted, rate)), answer])
  {
    var after := Cycle(s.pool.value, p.bufferId, p.acquireValue).state;
    TakenPost(cfg, s, outputs, p, env, after);
    var seen := s.(lastAcquire := p.acquireValue, pool := Some(after));
    ReportedPost(seen, after.metrics, p, env, cfg.generation, AcceptedSinceReady(outputs));
  }

  /** Such a post goes through the pool, which counts it. */
  lemma TakenPost(cfg: Config, s: Session, outputs: seq<Output>, p: Publication, env: Env, after: PoolState)
    requires Inv(cfg, s, outputs) && s.pool.Some?
    requires p.bufferId in {0, 1, 2} && s.lastAcquire < p.acquireValue
    requires after == Cycle(s.pool.value, p.bufferId, p.acquireValue).state
    ensures Step(cfg, s, Event(Post(28, p), env))
         == PostTaken(s.(lastAcquire := p.acquireValue, pool := Some(after)), after.metrics, p, env)
    ensures after.metrics == OneMore(cfg.generation, AcceptedSinceReady(outputs), 0)
    ensures s.published && s.lastReported == LastReported(outputs) <= after.metrics.produced
  {
    var pool := s.pool.value;
    assert Idle(cfg, s, outputs, pool.slots[p.bufferId], p.bufferId);
    CycleExact(pool, p.bufferId, p.acquireValue);
    CountedOnce(pool.metrics, AcceptedSinceReady(outputs), after.metrics);
  }

  lemma CountedOnce(before: Metrics, accepted: nat, after: Metrics)
    requires before.imported == before.presented == before.produced == Capped(accepted)
    requires before.dropped == before.fpsMilli == 0
    requires var next := SaturatingInc(before.produced);
             after == before.(produced := next, imported := next, presented := next)
    ensures after == OneMore(before.generation, accepted, 0)
  {
  }

  lemma ReportedPost(
    s: Session, metrics: Metrics, p: Publication, env: Env, generation: u64, accepted: nat)
    requires s.lastReported <= metrics.produced && s.published && metrics == OneMore(generation, accepted, 0)
    ensures var o := PostTaken(s, metrics, p, env);
            var answer := Response(p.bufferId, true, p.acquireValue);
            && o.error == (if env.markerPresent then None else Some(MarkerMissing))
            && o.session == s.(lastReported := o.session.lastReported)
            && (env.elapsedMs < 1000 ==> o.outputs == [answer])
            && (env.elapsedMs >= 1000 ==>
                  var rate := Rate(Capped(accepted + 1) - s.lastReported, env.elapsedMs);
                  o.outputs == [MetricsFile(OneMore(generation, accepted, rate)), answer])
  {
  }

  /** The posts that end a session with a pool. */
  lemma PostErrorsExactly(cfg: Config, s: Session, outputs: seq<Output>, size: u32, p: Publication, env: Env)
    requires Inv(cfg, s, outputs) && s.pool.Some?
    requires size != 28 || p.acquireValue <= s.lastAcquire || p.bufferId > 2
    ensures Step(cfg, s, Event(Post(size, p), env))
         == Outcome(s, [], Some(if size != 28 then BadSize
                                else if p.acquireValue <= s.lastAcquire then NotMonotonic
                                else PoolFailure(UnknownBuffer(p.bufferId))))
  {
    if p.bufferId > 2 {
      CycleExact(s.pool.value, p.bufferId, p.acquireValue);
    }
  }
}

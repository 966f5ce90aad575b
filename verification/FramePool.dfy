/**
 The three-buffer zero-copy frame pool: slots move between producer and consumer under explicit
 synchronization values, and four saturating counters record what happened to the frames.
 */
module FramePools {
  import opened Wrappers
  import opened Bytes

  const FRAME_BUFFER_COUNT := 3
  const FRAME_PROTOCOL_VERSION: u32 := 2
  const COMPONENT_PROTOCOL_VERSION: u32 := 2

  datatype Transport = VulkanWin32 | VulkanDmaBuf | MetalIoSurface

  datatype Format = Bgra8Srgb

  datatype Descriptor = Descriptor(
    protocolVersion: u32, instanceId: nat, generation: u64, bufferId: u8,
    transport: Transport, format: Format, width: u32, height: u32, strideBytes: u32,
    acquireValue: u64, releaseValue: u64, handleCount: u8)

  /** What the pool asks of an imported platform resource. */
  datatype Handle = Handle(transport: Transport, handleCount: u8)

  datatype Probe = Probe(
    protocolVersion: u32, serviceLifecycle: bool, transport: Transport, memoryExport: bool,
    explicitSync: bool, sameAdapter: bool, validationClean: bool)

  datatype Blocked = Lifecycle | Memory | Sync | Adapter | Validation

  datatype Defect =
    | ZeroGeneration | DuplicateId(id: u8) | Protocol | Generation | TransportMismatch | HandleCount
    | FormatMismatch | Dimensions

  datatype Owner = Available | ProducerOwned | ConsumerOwned

  datatype FrameError =
    | InteropBlocked(why: Blocked)
    | BufferCount(actual: nat)
    | InvalidDescriptor(defect: Defect)
    | UnknownBuffer(id: u8)
    | InvalidOwnership(id: u8, expected: Owner)
    | NonMonotonicSync(id: u8, previous: u64, next: u64)

  datatype Slot = Slot(
    descriptor: Descriptor, handle: Handle, owner: Owner, lastAcquire: u64, lastRelease: u64)

  datatype Metrics = Metrics(
    generation: u64, produced: u64, imported: u64, presented: u64, dropped: u64, fpsMilli: u32)

  datatype PoolState = PoolState(generation: u64, slots: map<u8, Slot>, metrics: Metrics)

  function SaturatingInc(n: u64): u64 {
    if n == U64_MAX then n else n + 1
  }

  // ---------------------------------------------------------------------------------------------
  // Creation
  // ---------------------------------------------------------------------------------------------

  function ValidateProbe(probe: Probe): Option<FrameError> {
    if probe.protocolVersion != COMPONENT_PROTOCOL_VERSION || !probe.serviceLifecycle then
      Some(InteropBlocked(Lifecycle))
    else if !probe.memoryExport then Some(InteropBlocked(Memory))
    else if !probe.explicitSync then Some(InteropBlocked(Sync))
    else if !probe.sameAdapter then Some(InteropBlocked(Adapter))
    else if !probe.validationClean then Some(InteropBlocked(Validation))
    else None
  }

  /** 32-bit saturating multiplication by four, as the stride check performs it. */
  function SaturatingRowBytes(width: u32): u32 {
    Min(width * 4, U32_MAX)
  }

  function ValidateDescriptor(probe: Probe, generation: u64, d: Descriptor, h: Handle): Option<FrameError> {
    if d.protocolVersion != FRAME_PROTOCOL_VERSION then Some(InvalidDescriptor(Protocol))
    else if d.generation != generation then Some(InvalidDescriptor(Generation))
    else if d.transport != probe.transport || h.transport != probe.transport then
      Some(InvalidDescriptor(TransportMismatch))
    else if d.handleCount == 0 || d.handleCount != h.handleCount then Some(InvalidDescriptor(HandleCount))
    else if d.format != Bgra8Srgb then Some(InvalidDescriptor(FormatMismatch))
    else if d.width < 320 || d.height < 320 || d.strideBytes < SaturatingRowBytes(d.width) then
      Some(InvalidDescriptor(Dimensions))
    else None
  }

  function FreshSlot(d: Descriptor, h: Handle): Slot {
    Slot(d, h, Available, d.acquireValue, d.releaseValue)
  }

  function FreshMetrics(generation: u64): Metrics {
    Metrics(generation, 0, 0, 0, 0, 0)
  }

  type Buffers = seq<(Descriptor, Handle)>

  /** Inserting the remaining buffers one by one; the first defect stops the creation. */
  function InsertAll(probe: Probe, generation: u64, buffers: Buffers, slots: map<u8, Slot>)
    : Result<map<u8, Slot>, FrameError>
  {
    if buffers == [] then Success(slots)
    else
      var (d, h) := buffers[0];
      match ValidateDescriptor(probe, generation, d, h)
      case Some(e) => Failure(e)
      case None =>
        if d.bufferId in slots then Failure(InvalidDescriptor(DuplicateId(d.bufferId)))
        else InsertAll(probe, generation, buffers[1..], slots[d.bufferId := FreshSlot(d, h)])
  }

  function CreateState(probe: Probe, buffers: Buffers): Result<PoolState, FrameError> {
    match ValidateProbe(probe)
    case Some(e) => Failure(e)
    case None =>
      if |buffers| != FRAME_BUFFER_COUNT then Failure(BufferCount(|buffers|))
      else
        var generation := buffers[0].0.generation;
        if generation == 0 then Failure(InvalidDescriptor(ZeroGeneration))
        else
          match InsertAll(probe, generation, buffers, map[])
          case Failure(e) => Failure(e)
          case Success(slots) => Success(PoolState(generation, slots, FreshMetrics(generation)))
  }

  function Ids(buffers: Buffers): set<u8> {
    set i | 0 <= i < |buffers| :: buffers[i].0.bufferId
  }

  ghost predicate DistinctIds(buffers: Buffers) {
    forall i, j :: 0 <= i < j < |buffers| ==> buffers[i].0.bufferId != buffers[j].0.bufferId
  }

  ghost predicate AllValid(probe: Probe, generation: u64, buffers: Buffers) {
    forall i :: 0 <= i < |buffers| ==> ValidateDescriptor(probe, generation, buffers[i].0, buffers[i].1) == None
  }

  ghost predicate AllNew(buffers: Buffers, slots: map<u8, Slot>) {
    forall i :: 0 <= i < |buffers| ==> buffers[i].0.bufferId !in slots
  }

  /** What was inserted is there, what was there before is kept, and nothing else appears. */
  lemma {:induction false} InsertAllContents(probe: Probe, generation: u64, buffers: Buffers, slots: map<u8, Slot>)
    requires InsertAll(probe, generation, buffers, slots).Success?
    ensures var all := InsertAll(probe, generation, buffers, slots).value;
            && all.Keys == slots.Keys + Ids(buffers)
            && (forall id <- slots :: all[id] == slots[id])
            && (forall i :: 0 <= i < |buffers| ==> all[buffers[i].0.bufferId] == FreshSlot(buffers[i].0, buffers[i].1))
    decreases |buffers|
  {
    if buffers != [] {
      var (d, h) := buffers[0];
      var rest := buffers[1..];
      var grown := slots[d.bufferId := FreshSlot(d, h)];
      InsertAllContents(probe, generation, rest, grown);
      var all := InsertAll(probe, generation, buffers, slots).value;
      assert forall i :: 0 < i < |buffers| ==> buffers[i] == rest[i - 1];
      assert forall i :: 0 <= i < |rest| ==> rest[i] == buffers[i + 1];
      assert Ids(buffers) == {d.bufferId} + Ids(rest);
      assert d.bufferId in grown;
      forall id <- slots ensures all[id] == slots[id] {
        assert id in grown;
      }
    }
  }

  /** Insertion succeeds exactly for valid buffers with new, distinct ids. */
  lemma {:induction false} InsertAllExact(probe: Probe, generation: u64, buffers: Buffers, slots: map<u8, Slot>)
    ensures InsertAll(probe, generation, buffers, slots).Success? <==>
            AllValid(probe, generation, buffers) && DistinctIds(buffers) && AllNew(buffers, slots)
    decreases |buffers|
  {
    if buffers != [] {
      var (d, h) := buffers[0];
      var rest := buffers[1..];
      if ValidateDescriptor(probe, generation, d, h) == None && d.bufferId !in slots {
        var grown := slots[d.bufferId := FreshSlot(d, h)];
        InsertAllExact(probe, generation, rest, grown);
        ValidSplit(probe, generation, buffers);
        DistinctSplit(buffers, slots, grown);
      } else {
        assert !AllValid(probe, generation, buffers) || !AllNew(buffers, slots);
      }
    }
  }

  lemma ValidSplit(probe: Probe, generation: u64, buffers: Buffers)
    requires buffers != []
    ensures AllValid(probe, generation, buffers) <==>
            ValidateDescriptor(probe, generation, buffers[0].0, buffers[0].1) == None
            && AllValid(probe, generation, buffers[1..])
  {
    var rest := buffers[1..];
    assert forall i :: 0 < i < |buffers| ==> buffers[i] == rest[i - 1];
    assert forall i :: 0 <= i < |rest| ==> rest[i] == buffers[i + 1];
  }

  lemma DistinctSplit(buffers: Buffers, slots: map<u8, Slot>, grown: map<u8, Slot>)
    requires buffers != [] && buffers[0].0.bufferId !in slots
    requires grown.Keys == slots.Keys + {buffers[0].0.bufferId}
    ensures DistinctIds(buffers) && AllNew(buffers, slots) <==> DistinctIds(buffers[1..]) && AllNew(buffers[1..], grown)
  {
    var rest := buffers[1..];
    assert forall i :: 0 < i < |buffers| ==> buffers[i] == rest[i - 1];
    assert forall i :: 0 <= i < |rest| ==> rest[i] == buffers[i + 1];
    if DistinctIds(rest) && AllNew(rest, grown) {
      forall i, j | 0 <= i < j < |buffers| ensures buffers[i].0.bufferId != buffers[j].0.bufferId {
        assert rest[j - 1].0.bufferId !in grown;
      }
    }
  }

  /**
   Creation succeeds exactly for a supported probe, three valid buffers of one non-zero generation
   and pairwise distinct ids; every slot then starts Available with its descriptor's own values.
   */
  lemma CreateExact(probe: Probe, buffers: Buffers)
    ensures var r := CreateState(probe, buffers);
            r.Success? <==>
            && ValidateProbe(probe) == None
            && |buffers| == FRAME_BUFFER_COUNT
            && buffers[0].0.generation != 0
            && AllValid(probe, buffers[0].0.generation, buffers)
            && DistinctIds(buffers)
    ensures var r := CreateState(probe, buffers);
            r.Success? ==>
              && r.value.metrics == FreshMetrics(r.value.generation)
              && r.value.slots.Keys == Ids(buffers)
              && |r.value.slots| == FRAME_BUFFER_COUNT
              && forall i :: 0 <= i < |buffers| ==>
                   r.value.slots[buffers[i].0.bufferId] == FreshSlot(buffers[i].0, buffers[i].1)
  {
    if |buffers| == FRAME_BUFFER_COUNT {
      var generation := buffers[0].0.generation;
      InsertAllExact(probe, generation, buffers, map[]);
      var r := CreateState(probe, buffers);
      if r.Success? {
        InsertAllContents(probe, generation, buffers, map[]);
        var ids := Ids(buffers);
        assert ids == {buffers[0].0.bufferId, buffers[1].0.bufferId, buffers[2].0.bufferId};
        assert r.value.slots.Keys == ids;
        assert |r.value.slots| == |r.value.slots.Keys|;
      }
    }
  }

  // ---------------------------------------------------------------------------------------------
  // The four ownership calls
  // ---------------------------------------------------------------------------------------------

  datatype Call =
    | Acquire(id: u8)
    | Publish(id: u8, value: u64)
    | Import(id: u8)
    | Release(id: u8, value: u64, presented: bool)

  datatype Reply = Granted(descriptor: Descriptor) | Done | Failed(error: FrameError)

  datatype CallOutcome = CallOutcome(state: PoolState, reply: Reply)

  /** The owner a slot must have for the call to be accepted. */
  function NeededOwner(call: Call): Owner {
    match call
    case Acquire(_) => Available
    case Publish(_, _) => ProducerOwned
    case Import(_) => ConsumerOwned
    case Release(_, _, _) => ConsumerOwned
  }

  function Refusal(s: PoolState, call: Call): Option<FrameError> {
    if call.id !in s.slots then Some(UnknownBuffer(call.id))
    else
      var slot := s.slots[call.id];
      if slot.owner != NeededOwner(call) then Some(InvalidOwnership(call.id, NeededOwner(call)))
      else if call.Publish? && call.value <= slot.lastAcquire then
        Some(NonMonotonicSync(call.id, slot.lastAcquire, call.value))
      else if call.Release? && call.value <= slot.lastRelease then
        Some(NonMonotonicSync(call.id, slot.lastRelease, call.value))
      else None
  }

  function NextSlot(slot: Slot, call: Call): Slot {
    match call
    case Acquire(_) => slot.(owner := ProducerOwned)
    case Publish(_, v) =>
      slot.(owner := ConsumerOwned, lastAcquire := v, descriptor := slot.descriptor.(acquireValue := v))
    case Import(_) => slot
    case Release(_, v, _) =>
      slot.(owner := Available, lastRelease := v, descriptor := slot.descriptor.(releaseValue := v))
  }

  function NextMetrics(m: Metrics, call: Call): Metrics {
    match call
    case Acquire(_) => m
    case Publish(_, _) => m.(produced := SaturatingInc(m.produced))
    case Import(_) => m.(imported := SaturatingInc(m.imported))
    case Release(_, _, presented) =>
      if presented then m.(presented := SaturatingInc(m.presented))
      else m.(dropped := SaturatingInc(m.dropped))
  }

  function Apply(s: PoolState, call: Call): CallOutcome {
    match Refusal(s, call)
    case Some(e) => CallOutcome(s, Failed(e))
    case None =>
      var slot := NextSlot(s.slots[call.id], call);
      CallOutcome(
        s.(slots := s.slots[call.id := slot], metrics := NextMetrics(s.metrics, call)),
        if call.Acquire? || call.Publish? then Granted(slot.descriptor) else Done)
  }

  function RunCalls(s: PoolState, calls: seq<Call>): PoolState
    decreases |calls|
  {
    if calls == [] then s else RunCalls(Apply(s, calls[0]).state, calls[1..])
  }

  /** Exact counts of the accepted calls of a run, without any counter width. */
  datatype Tally = Tally(published: nat, imported: nat, presented: nat, dropped: nat)

  function Counted(s: PoolState, call: Call, t: Tally): Tally {
    if Refusal(s, call).Some? then t
    else
      match call
      case Acquire(_) => t
      case Publish(_, _) => t.(published := t.published + 1)
      case Import(_) => t.(imported := t.imported + 1)
      case Release(_, _, presented) =>
        if presented then t.(presented := t.presented + 1) else t.(dropped := t.dropped + 1)
  }

  function TallyCalls(s: PoolState, calls: seq<Call>, t: Tally): Tally
    decreases |calls|
  {
    if calls == [] then t
    else TallyCalls(Apply(s, calls[0]).state, calls[1..], Counted(s, calls[0], t))
  }

  function ConsumerHeld(slots: map<u8, Slot>): set<u8> {
    set id <- slots | slots[id].owner == ConsumerOwned
  }

  function Capped(n: nat): u64 {
    Min(n, U64_MAX)
  }

  /** Frames are conserved, and each counter is the true count cut off at its 64-bit maximum. */
  ghost predicate Conserved(s: PoolState, t: Tally) {
    && t.published == t.presented + t.dropped + |ConsumerHeld(s.slots)|
    && s.metrics.produced == Capped(t.published)
    && s.metrics.imported == Capped(t.imported)
    && s.metrics.presented == Capped(t.presented)
    && s.metrics.dropped == Capped(t.dropped)
  }

  lemma ConsumerHeldAfterUpdate(slots: map<u8, Slot>, id: u8, slot: Slot)
    requires id in slots
    ensures var after := slots[id := slot];
            |ConsumerHeld(after)| == |ConsumerHeld(slots)|
              + (if slot.owner == ConsumerOwned then 1 else 0)
              - (if slots[id].owner == ConsumerOwned then 1 else 0)
  {
    var others := ConsumerHeld(slots) - {id};
    assert ConsumerHeld(slots) == if slots[id].owner == ConsumerOwned then others + {id} else others;
    assert ConsumerHeld(slots[id := slot]) == if slot.owner == ConsumerOwned then others + {id} else others;
  }

  lemma CallConserves(s: PoolState, call: Call, t: Tally)
    requires Conserved(s, t)
    ensures Conserved(Apply(s, call).state, Counted(s, call, t))
  {
    if Refusal(s, call).None? {
      ConsumerHeldAfterUpdate(s.slots, call.id, NextSlot(s.slots[call.id], call));
    }
  }

  /**
   Conservation over any interleaving of accepted and refused calls on a freshly created pool:
   every published frame has been presented, dropped or is still held by the consumer.
   */
  lemma {:induction false} PoolConservation(s: PoolState, calls: seq<Call>, t: Tally)
    requires Conserved(s, t)
    ensures Conserved(RunCalls(s, calls), TallyCalls(s, calls, t))
    decreases |calls|
  {
    if calls != [] {
      CallConserves(s, calls[0], t);
      PoolConservation(Apply(s, calls[0]).state, calls[1..], Counted(s, calls[0], t));
    }
  }

  lemma CreatedPoolConserves(probe: Probe, buffers: Buffers, calls: seq<Call>)
    requires CreateState(probe, buffers).Success?
    ensures var s := CreateState(probe, buffers).value;
            Conserved(RunCalls(s, calls), TallyCalls(s, calls, Tally(0, 0, 0, 0)))
  {
    CreateExact(probe, buffers);
    var s := CreateState(probe, buffers).value;
    assert ConsumerHeld(s.slots) == {} by {
      forall id <- s.slots ensures s.slots[id].owner == Available {
        var i :| 0 <= i < |buffers| && buffers[i].0.bufferId == id;
      }
    }
    PoolConservation(s, calls, Tally(0, 0, 0, 0));
  }

  // ---------------------------------------------------------------------------------------------
  // Synchronization values over a run
  // ---------------------------------------------------------------------------------------------

  /** The acquire (or release) values a run accepts for one buffer, in order. */
  function AcceptedValues(s: PoolState, calls: seq<Call>, id: u8, acquire: bool): seq<u64>
    decreases |calls|
  {
    if calls == [] then []
    else
      var call := calls[0];
      var rest := AcceptedValues(Apply(s, call).state, calls[1..], id, acquire);
      if Refusal(s, call).None? && call.id == id && (if acquire then call.Publish? else call.Release?)
      then [call.value] + rest
      else rest
  }

  ghost predicate Increasing(values: seq<u64>) {
    forall i, j :: 0 <= i < j < |values| ==> values[i] < values[j]
  }

  function LastValue(slot: Slot, acquire: bool): u64 {
    if acquire then slot.lastAcquire else slot.lastRelease
  }

  /**
   Over every run, the acquire values and the release values accepted for a buffer strictly
   increase, exceed the value it started from, and end at the value the slot then holds.
   */
  lemma {:induction false} SyncValuesIncrease(s: PoolState, calls: seq<Call>, id: u8, acquire: bool)
    requires id in s.slots
    ensures var values := AcceptedValues(s, calls, id, acquire);
            var final := RunCalls(s, calls);
            && id in final.slots
            && Increasing([LastValue(s.slots[id], acquire)] + values)
            && LastValue(final.slots[id], acquire) == ([LastValue(s.slots[id], acquire)] + values)[|values|]
    decreases |calls|
  {
    if calls != [] {
      var call := calls[0];
      var next := Apply(s, call).state;
      var rest := AcceptedValues(next, calls[1..], id, acquire);
      SyncValuesIncrease(next, calls[1..], id, acquire);
      var start := LastValue(s.slots[id], acquire);
      var mid := LastValue(next.slots[id], acquire);
      var tail := [mid] + rest;
      if Refusal(s, call).None? && call.id == id && (if acquire then call.Publish? else call.Release?) {
        assert call.value == mid;
        var all := [start] + ([call.value] + rest);
        assert all == [start] + tail;
        forall i, j | 0 <= i < j < |all| ensures all[i] < all[j] {
          assert all[j] == tail[j - 1];
          assert i > 0 ==> all[i] == tail[i - 1];
          assert j - 1 > 0 ==> tail[0] < tail[j - 1];
        }
      } else {
        assert start == mid;
      }
    }
  }

  // ---------------------------------------------------------------------------------------------
  // The pool object
  // ---------------------------------------------------------------------------------------------

  class FramePool {
    const generation: u64
    var slots: map<u8, Slot>
    var metrics: Metrics

    ghost function State(): PoolState
      reads this
    {
      PoolState(generation, slots, metrics)
    }

    constructor (generation: u64, slots: map<u8, Slot>)
      ensures State() == PoolState(generation, slots, FreshMetrics(generation))
    {
      this.generation := generation;
      this.slots := slots;
      this.metrics := FreshMetrics(generation);
    }

    static method Create(probe: Probe, buffers: Buffers) returns (r: Result<FramePool, FrameError>)
      ensures r.Success? <==> CreateState(probe, buffers).Success?
      ensures r.Success? ==> fresh(r.value) && r.value.State() == CreateState(probe, buffers).value
      ensures r.Failure? ==> r.error == CreateState(probe, buffers).error
    {
      var blocked := ValidateProbe(probe);
      if blocked.Some? {
        return Failure(blocked.value);
      }
      if |buffers| != FRAME_BUFFER_COUNT {
        return Failure(BufferCount(|buffers|));
      }
      var generation := buffers[0].0.generation;
      if generation == 0 {
        return Failure(InvalidDescriptor(ZeroGeneration));
      }
      var slots: map<u8, Slot> := map[];
      for i := 0 to |buffers|
        invariant InsertAll(probe, generation, buffers[i..], slots) == InsertAll(probe, generation, buffers, map[])
      {
        var (d, h) := buffers[i];
        assert buffers[i..][0] == buffers[i] && buffers[i..][1..] == buffers[i + 1..];
        var defect := ValidateDescriptor(probe, generation, d, h);
        if defect.Some? {
          return Failure(defect.value);
        }
        if d.bufferId in slots {
          return Failure(InvalidDescriptor(DuplicateId(d.bufferId)));
        }
        slots := slots[d.bufferId := FreshSlot(d, h)];
      }
      var pool := new FramePool(generation, slots);
      r := Success(pool);
    }

    method ProducerAcquire(id: u8) returns (r: Result<Descriptor, FrameError>)
      modifies this`slots
      ensures State() == Apply(old(State()), Acquire(id)).state
      ensures Apply(old(State()), Acquire(id)).reply == if r.Success? then Granted(r.value) else Failed(r.error)
    {
      if id !in slots {
        return Failure(UnknownBuffer(id));
      }
      var slot := slots[id];
      if slot.owner != Available {
        return Failure(InvalidOwnership(id, Available));
      }
      slots := slots[id := slot.(owner := ProducerOwned)];
      r := Success(slot.descriptor);
    }

    method ProducerPublish(id: u8, value: u64) returns (r: Result<Descriptor, FrameError>)
      modifies this`slots, this`metrics
      ensures State() == Apply(old(State()), Publish(id, value)).state
      ensures Apply(old(State()), Publish(id, value)).reply == if r.Success? then Granted(r.value) else Failed(r.error)
    {
      if id !in slots {
        return Failure(UnknownBuffer(id));
      }
      var slot := slots[id];
      if slot.owner != ProducerOwned {
        return Failure(InvalidOwnership(id, ProducerOwned));
      }
      if value <= slot.lastAcquire {
        return Failure(NonMonotonicSync(id, slot.lastAcquire, value));
      }
      var descriptor := slot.descriptor.(acquireValue := value);
      slots := slots[id := slot.(lastAcquire := value, descriptor := descriptor, owner := ConsumerOwned)];
      metrics := metrics.(produced := SaturatingInc(metrics.produced));
      r := Success(descriptor);
    }

    method ConsumerImported(id: u8) returns (r: Result<(), FrameError>)
      modifies this`metrics
      ensures State() == Apply(old(State()), Import(id)).state
      ensures Apply(old(State()), Import(id)).reply == if r.Success? then Done else Failed(r.error)
    {
      if id !in slots {
        return Failure(UnknownBuffer(id));
      }
      if slots[id].owner != ConsumerOwned {
        return Failure(InvalidOwnership(id, ConsumerOwned));
      }
      metrics := metrics.(imported := SaturatingInc(metrics.imported));
      assert slots == slots[id := slots[id]];
      r := Success(());
    }

    method ConsumerRelease(id: u8, value: u64, presented: bool) returns (r: Result<(), FrameError>)
      modifies this`slots, this`metrics
      ensures State() == Apply(old(State()), Release(id, value, presented)).state
      ensures Apply(old(State()), Release(id, value, presented)).reply == if r.Success? then Done else Failed(r.error)
    {
      if id !in slots {
        return Failure(UnknownBuffer(id));
      }
      var slot := slots[id];
      if slot.owner != ConsumerOwned {
        return Failure(InvalidOwnership(id, ConsumerOwned));
      }
      if value <= slot.lastRelease {
        return Failure(NonMonotonicSync(id, slot.lastRelease, value));
      }
      slots := slots[id := slot.(
        lastRelease := value, descriptor := slot.descriptor.(releaseValue := value), owner := Available)];
      if presented {
        metrics := metrics.(presented := SaturatingInc(metrics.presented));
      } else {
        metrics := metrics.(dropped := SaturatingInc(metrics.dropped));
      }
      r := Success(());
    }
  }
}

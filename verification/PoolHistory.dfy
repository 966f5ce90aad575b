/**
 The frame pool seen from outside: what a call is answered follows from the calls accepted before it for
 the same buffer, without looking at any slot.
 */
module PoolHistories {
  import opened Wrappers
  import opened Bytes
  import opened FramePools

  /** What may be handed to a pool: the checks of its creation, field by field. */
  ghost predicate GoodProbe(p: Probe) {
    && p.protocolVersion == 2 && p.serviceLifecycle && p.memoryExport && p.explicitSync && p.sameAdapter
    && p.validationClean
  }

  ghost predicate GoodBuffer(p: Probe, generation: u64, d: Descriptor, h: Handle) {
    && d.protocolVersion == 2 && d.generation == generation > 0
    && d.transport == p.transport && h.transport == p.transport
    && d.handleCount > 0 && d.handleCount == h.handleCount
    && d.width >= 320 && d.height >= 320 && (d.strideBytes >= 4 * d.width || d.strideBytes == 0xFFFF_FFFF)
  }

  /** A pool is created exactly from a good probe and three good buffers of one generation with different ids. */
  lemma CreatedExactly(probe: Probe, buffers: Buffers)
    ensures CreateState(probe, buffers).Success? <==>
            && GoodProbe(probe) && |buffers| == 3
            && (forall i :: 0 <= i < 3 ==>
                  GoodBuffer(probe, buffers[0].0.generation, buffers[i].0, buffers[i].1))
            && buffers[0].0.bufferId != buffers[1].0.bufferId
            && buffers[0].0.bufferId != buffers[2].0.bufferId
            && buffers[1].0.bufferId != buffers[2].0.bufferId
  {
    CreateExact(probe, buffers);
    if |buffers| == 3 {
      var generation := buffers[0].0.generation;
      forall i | 0 <= i < 3
        ensures GoodBuffer(probe, generation, buffers[i].0, buffers[i].1) <==>
                generation != 0 && ValidateDescriptor(probe, generation, buffers[i].0, buffers[i].1) == None
      {
      }
      assert DistinctIds(buffers) <==>
             && buffers[0].0.bufferId != buffers[1].0.bufferId
             && buffers[0].0.bufferId != buffers[2].0.bufferId
             && buffers[1].0.bufferId != buffers[2].0.bufferId;
    }
  }

  // ---------------------------------------------------------------------------------------------
  // Answers from the history of a buffer
  // ---------------------------------------------------------------------------------------------

  /** The calls of a run that name a buffer and are not refused, in order. */
  function Accepted(s: PoolState, calls: seq<Call>, id: u8): seq<Call>
    decreases |calls|
  {
    if calls == [] then []
    else
      var o := Apply(s, calls[0]);
      (if calls[0].id == id && !o.reply.Failed? then [calls[0]] else []) + Accepted(o.state, calls[1..], id)
  }

  /** The last call that handed the buffer over; an import leaves it where it is. */
  function LastTurn(history: seq<Call>): (turn: Option<Call>)
    ensures turn.Some? ==> !turn.value.Import?
  {
    if history == [] then None
    else
      var last := history[|history| - 1];
      if last.Import? then LastTurn(history[..|history| - 1]) else Some(last)
  }

  function LastPublished(history: seq<Call>, seed: u64): u64 {
    if history == [] then seed
    else
      var last := history[|history| - 1];
      if last.Publish? then last.value else LastPublished(history[..|history| - 1], seed)
  }

  function LastReleased(history: seq<Call>, seed: u64): u64 {
    if history == [] then seed
    else
      var last := history[|history| - 1];
      if last.Release? then last.value else LastReleased(history[..|history| - 1], seed)
  }

  /**
   The protocol of one buffer. The producer acquires it when it is new or released, and publishes it with
   a value above all published before; the consumer may import it any number of times and releases it with
   a value above all released before.
   */
  function Answer(d: Descriptor, history: seq<Call>, call: Call): Reply {
    var turn := LastTurn(history);
    var published := LastPublished(history, d.acquireValue);
    var released := LastReleased(history, d.releaseValue);
    match call
    case Acquire(id) =>
      if turn == None || turn.value.Release?
      then Granted(d.(acquireValue := published, releaseValue := released))
      else Failed(InvalidOwnership(id, Available))
    case Publish(id, value) =>
      if turn == None || !turn.value.Acquire? then Failed(InvalidOwnership(id, ProducerOwned))
      else if value <= published then Failed(NonMonotonicSync(id, published, value))
      else Granted(d.(acquireValue := value, releaseValue := released))
    case Import(id) =>
      if turn == None || !turn.value.Publish? then Failed(InvalidOwnership(id, ConsumerOwned)) else Done
    case Release(id, value, _) =>
      if turn == None || !turn.value.Publish? then Failed(InvalidOwnership(id, ConsumerOwned))
      else if value <= released then Failed(NonMonotonicSync(id, released, value))
      else Done
  }

  /** A slot that stands where the history of its buffer has brought it. */
  ghost predicate Follows(slot: Slot, d: Descriptor, history: seq<Call>) {
    && slot.lastAcquire == LastPublished(history, d.acquireValue)
    && slot.lastRelease == LastReleased(history, d.releaseValue)
    && slot.descriptor == d.(acquireValue := slot.lastAcquire, releaseValue := slot.lastRelease)
    && slot.owner == match LastTurn(history)
                     case None => Available
                     case Some(turn) => if turn.Acquire? then ProducerOwned
                                        else if turn.Publish? then ConsumerOwned else Available
  }

  lemma StepFollows(s: PoolState, call: Call, d: Descriptor, history: seq<Call>)
    requires call.id in s.slots && Follows(s.slots[call.id], d, history)
    ensures var o := Apply(s, call);
            && o.reply == Answer(d, history, call)
            && call.id in o.state.slots
            && Follows(o.state.slots[call.id], d, if o.reply.Failed? then history else history + [call])
  {
    var longer := history + [call];
    assert longer[..|longer| - 1] == history;
  }

  lemma {:induction false} RunFollows(s: PoolState, calls: seq<Call>, id: u8, d: Descriptor, history: seq<Call>)
    requires id in s.slots && Follows(s.slots[id], d, history)
    ensures var end := RunCalls(s, calls);
            id in end.slots && Follows(end.slots[id], d, history + Accepted(s, calls, id))
    decreases |calls|
  {
    if calls == [] {
      assert history + [] == history;
    } else {
      var o := Apply(s, calls[0]);
      var more := if calls[0].id == id && !o.reply.Failed? then [calls[0]] else [];
      if calls[0].id == id {
        StepFollows(s, calls[0], d, history);
      }
      assert more == [] ==> history + more == history;
      RunFollows(o.state, calls[1..], id, d, history + more);
      assert history + more + Accepted(o.state, calls[1..], id) == history + (more + Accepted(o.state, calls[1..], id));
    }
  }

  lemma {:induction false} NoNewSlots(s: PoolState, calls: seq<Call>)
    ensures RunCalls(s, calls).slots.Keys == s.slots.Keys
    decreases |calls|
  {
    if calls != [] {
      NoNewSlots(Apply(s, calls[0]).state, calls[1..]);
    }
  }

  /**
   After every run of accepted and refused calls on a created pool, a call is answered as the accepted
   calls for its buffer demand, and a call for any other id with an unknown buffer.
   */
  lemma CallsAreAnswered(probe: Probe, buffers: Buffers, calls: seq<Call>, call: Call)
    requires CreateState(probe, buffers).Success?
    ensures var s := CreateState(probe, buffers).value;
            var reply := Apply(RunCalls(s, calls), call).reply;
            && (call.id !in Ids(buffers) ==> reply == Failed(UnknownBuffer(call.id)))
            && forall i :: 0 <= i < |buffers| && buffers[i].0.bufferId == call.id ==>
                 reply == Answer(buffers[i].0, Accepted(s, calls, call.id), call)
  {
    CreateExact(probe, buffers);
    var s := CreateState(probe, buffers).value;
    NoNewSlots(s, calls);
    forall i | 0 <= i < |buffers| && buffers[i].0.bufferId == call.id
      ensures Apply(RunCalls(s, calls), call).reply == Answer(buffers[i].0, Accepted(s, calls, call.id), call)
    {
      var d := buffers[i].0;
      assert call.id in Ids(buffers);
      assert Follows(s.slots[call.id], d, []);
      RunFollows(s, calls, call.id, d, []);
      var history := Accepted(s, calls, call.id);
      assert [] + history == history;
      StepFollows(RunCalls(s, calls), call, d, history);
    }
  }
}

/**
  The protocol with the ring itself as its state: wrap-around, the 64 KiB clamp and regrowth take place
  within the interleaving, and every such run is a run of the protocol on the queue.
 */
module AioRingRuns {
  import opened AioRing
  import opened AioProtocol

  /** The shared block with its ring; the queue of `rest` is not used. */
  datatype RingState = RingState(ring: Ring, rest: State)

  ghost predicate Valid(s: RingState) {
    s.ring.Valid() && s.rest.queue == []
  }

  /** The state of the protocol that this one stands for. */
  ghost function Abstract(s: RingState): State
    requires Valid(s)
  {
    s.rest.(queue := s.ring.Queue())
  }

  /** What `aio_new` sets up. */
  ghost predicate RingInit(s: RingState) {
    |s.ring.buf| == ASYNC_BUFSIZE as int && s.ring.read == 0 && s.ring.write == 0 && Init(s.rest)
  }

  /**
    One step. The writer thread compares the two positions to see whether the ring is empty; a client
    writes whatever its branch of `aio_write_unlocked` makes of the ring, which leaves the unused part of
    a new buffer open, and keeps the total below 2^31. The other steps do not touch the ring.
   */
  ghost predicate RingTook(s: RingState, step: Step, t: RingState)
    requires Valid(s)
  {
    && Enabled(s.rest, step)
    && match step
       case WriterTop =>
         if s.ring.read == s.ring.write then t == RingState(s.ring, AtTop(s.rest))
         else t == RingState(AfterTaking(s.ring), s.rest.(local := Chunk(s.ring.Queue()), lock := Free, writer := Copied))
       case Write(c, data) =>
         && |s.ring.Queue()| + |data| < MAX_RING_SIZE
         && Wrote(s.ring, data, t.ring)
         && t.rest == s.rest.(sessions := ExtendLast(s.rest.sessions, data))
       case _ => t == RingState(s.ring, Apply(s.rest, step))
  }

  ghost predicate RingNext(s: RingState, t: RingState) {
    Valid(s) && exists step :: RingTook(s, step, t)
  }

  ghost predicate RingRun(trace: seq<RingState>) {
    && trace != [] && RingInit(trace[0])
    && forall i, j {:trigger RingNext(trace[i], trace[j])} :: 0 <= i < j < |trace| && j == i + 1 ==> RingNext(trace[i], trace[j])
  }

  lemma RingInitIsInit(s: RingState)
    requires RingInit(s)
    ensures Valid(s) && Init(Abstract(s)) && Abstract(s) == s.rest
  {
    assert RingSize(0) == ASYNC_BUFSIZE as int;
  }

  /** Every step on the ring is the same step on the queue. */
  lemma RingStepRefines(s: RingState, step: Step, t: RingState)
    requires Valid(s) && RingTook(s, step, t)
    ensures Valid(t) && Enabled(Abstract(s), step) && Abstract(t) == Apply(Abstract(s), step)
  {
    hide Ring.Queue, Ring.Valid, AfterTaking, Wrote, Chunk, AfterChunk, Flatten, ExtendLast;
    match step
    case WriterTop =>
      RingEmptyIff(s.ring);
      TakingTakesChunk(s.ring);
    case Write(c, data) => WroteAppends(s.ring, data, t.ring);
    case _ => OtherStepRefines(s, step);
  }

  lemma RingEmptyIff(r: Ring)
    requires r.Valid()
    ensures r.read == r.write <==> r.Queue() == []
  {
  }

  lemma OtherStepRefines(s: RingState, step: Step)
    requires Valid(s) && Enabled(s.rest, step) && !step.WriterTop? && !step.Write?
    ensures Enabled(Abstract(s), step) && Apply(s.rest, step).queue == []
    ensures Apply(Abstract(s), step) == Apply(s.rest, step).(queue := s.ring.Queue())
  {
    hide Ring.Queue, Ring.Valid, Chunk, AfterChunk, Flatten, ExtendLast;
  }

  ghost function Abstracted(trace: seq<RingState>): (states: seq<State>)
    requires forall i :: 0 <= i < |trace| ==> Valid(trace[i])
    ensures |states| == |trace| && forall i :: 0 <= i < |trace| ==> states[i] == Abstract(trace[i])
  {
    seq(|trace|, i requires 0 <= i < |trace| => Abstract(trace[i]))
  }

  lemma {:induction false} RingsStayValid(trace: seq<RingState>, i: nat)
    requires RingRun(trace) && i < |trace|
    ensures Valid(trace[i])
    ensures i > 0 ==> Valid(trace[i - 1]) && Next(Abstract(trace[i - 1]), Abstract(trace[i]))
  {
    hide Valid, Abstract, RingTook, Enabled, Apply, RingInit;
    if i == 0 {
      RingInitIsInit(trace[0]);
    } else {
      RingsStayValid(trace, i - 1);
      assert RingNext(trace[i - 1], trace[i]);
      var step :| RingTook(trace[i - 1], step, trace[i]);
      RingStepRefines(trace[i - 1], step, trace[i]);
    }
  }

  /** Every run with the ring is a run of the protocol, so all that holds of those holds of these. */
  lemma RingRunRefines(trace: seq<RingState>)
    requires RingRun(trace)
    ensures forall i :: 0 <= i < |trace| ==> Valid(trace[i])
    ensures Run(Abstracted(trace))
  {
    hide Valid, Abstract, RingNext, Next, RingInit, Init;
    forall i | 0 <= i < |trace|
      ensures Valid(trace[i])
    {
      RingsStayValid(trace, i);
    }
    var states := Abstracted(trace);
    RingInitIsInit(trace[0]);
    forall i, j | 0 <= i < j < |states| && j == i + 1
      ensures Next(states[i], states[j])
    {
      RingsStayValid(trace, j);
    }
  }

  /**
    In every interleaving, at every moment: the file, the thread's chunk and the bytes between the two
    positions of the ring, around its end if need be, are all writes in lock order, and the ring is not
    completely full.
   */
  lemma RingLosesNothing(trace: seq<RingState>, i: nat)
    requires RingRun(trace) && i < |trace|
    ensures trace[i].ring.Valid()
    ensures var s := trace[i]; s.rest.file + s.rest.local + s.ring.Queue() == Flatten(s.rest.sessions)
    ensures |trace[i].ring.Queue()| < |trace[i].ring.buf|
  {
    hide Flatten, Run, RingRun, Ring.Queue, Ring.Valid;
    RingRunRefines(trace);
    NothingLostOrReordered(Abstracted(trace), i);
  }

  /** A parked writer with nothing to wake it up has equal positions, and everything is in the file. */
  lemma RingLosesNoWakeUp(trace: seq<RingState>, i: nat)
    requires RingRun(trace) && i < |trace|
    requires trace[i].rest.writer.Parked? && trace[i].rest.semaphore == 0
    requires forall c :: 0 <= c < |trace[i].rest.clients| ==> !trace[i].rest.clients[c].WillSignal()
    ensures trace[i].ring.read == trace[i].ring.write && trace[i].rest.file == Flatten(trace[i].rest.sessions)
  {
    hide Flatten, Run, RingRun, Ring.Queue, Ring.Valid;
    RingRunRefines(trace);
    NoLostWakeUp(Abstracted(trace), i);
    RingEmptyIff(trace[i].ring);
  }
}

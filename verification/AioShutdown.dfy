/**
  The end of the asynchronous writer: exactly when the file it leaves behind is complete, and that it
  comes to an end whatever the scheduler does.
 */
module AioShutdown {
  import opened Machine
  import opened AioRing
  import opened AioProtocol

  // ---------------------------------------------------------------------------------------------
  // What is written after the writer thread has left
  // ---------------------------------------------------------------------------------------------

  ghost predicate Writes(s: State, t: State, c: nat, data: seq<byte>) {
    Enabled(s, Write(c, data)) && t == Apply(s, Write(c, data))
  }

  /** The step between these two states is not one that writes a byte. */
  ghost predicate WritesNothing(s: State, t: State) {
    forall c, data :: Writes(s, t, c, data) ==> data == []
  }

  /** No client writes a byte between these two moments. */
  ghost predicate NothingWritten(trace: seq<State>, j: nat, i: nat)
    requires j <= i < |trace|
  {
    forall k, k' {:trigger WritesNothing(trace[k], trace[k'])} ::
      j <= k < k' <= i && k' == k + 1 ==> WritesNothing(trace[k], trace[k'])
  }

  lemma NothingWrittenStep(trace: seq<State>, j: nat, i: nat)
    requires j < i < |trace|
    ensures NothingWritten(trace, j, i) <==>
              NothingWritten(trace, j, i - 1) && WritesNothing(trace[i - 1], trace[i])
  {
    hide WritesNothing;
  }

  lemma {:induction false} QueueAfterLeaving(trace: seq<State>, j: nat, i: nat)
    requires Run(trace) && j <= i < |trace| && WriterLeft(trace[j]) && trace[j].queue == []
    ensures WriterLeft(trace[i]) && (trace[i].queue == [] <==> NothingWritten(trace, j, i))
    decreases i
  {
    hide Run, NothingWritten, Enabled, Apply, WritesNothing;
    if i == j {
      NothingWrittenYet(trace, j);
    } else {
      QueueAfterLeaving(trace, j, i - 1);
      RunStep(trace, i);
      NothingWrittenStep(trace, j, i);
      QueueStep(trace[i - 1], trace[i]);
    }
  }

  lemma NothingWrittenYet(trace: seq<State>, j: nat)
    requires j < |trace|
    ensures NothingWritten(trace, j, j)
  {
  }

  lemma RunStep(trace: seq<State>, i: nat)
    requires Run(trace) && 0 < i < |trace|
    ensures Next(trace[i - 1], trace[i])
  {
  }

  /** Without the writer thread the ring only grows, and only by writes. */
  lemma QueueStep(s: State, t: State)
    requires Next(s, t) && WriterLeft(s)
    ensures WriterLeft(t) && s.queue <= t.queue
    ensures t.queue == s.queue <==> WritesNothing(s, t)
  {
    hide Enabled, Apply;
    var step :| Enabled(s, step) && t == Apply(s, step);
    QueueAfterStep(s, step);
    assert step.Write? ==> Writes(s, t, step.c, step.data);
    forall c, data | Writes(s, t, c, data)
      ensures t.queue == s.queue + data
    {
      QueueAfterStep(s, Write(c, data));
    }
  }

  lemma QueueAfterStep(s: State, step: Step)
    requires Enabled(s, step) && WriterLeft(s)
    ensures WriterLeft(Apply(s, step))
    ensures Apply(s, step).queue == if step.Write? then s.queue + step.data else s.queue
  {
    hide Flatten, ExtendLast, Chunk, AfterChunk;
  }

  /**
    From the moment `j` when the writer thread leaves, the file holds everything that was ever written
    exactly if nothing was written since.
   */
  lemma CompleteIffNothingWrittenLater(trace: seq<State>, j: nat, i: nat)
    requires Run(trace) && 0 < j <= i < |trace| && WriterLeft(trace[j]) && !WriterLeft(trace[j - 1])
    ensures trace[i].file == Flatten(trace[i].sessions) <==> NothingWritten(trace, j, i)
    ensures trace[i].file == Flatten(trace[i].sessions) <==> Flatten(trace[i].sessions) == Flatten(trace[j].sessions)
    ensures trace[i].file == Flatten(trace[j].sessions)
  {
    hide Flatten, NothingWritten;
    RunStep(trace, j);
    assert trace[j].queue == [];
    QueueAfterLeaving(trace, j, i);
    FinishedFileIsComplete(trace, i);
    FinishedFileIsComplete(trace, j);
    ClosedFileIsFinal(trace, j, i);
  }

  lemma RunExtends(trace: seq<State>, step: Step) returns (longer: seq<State>)
    requires Run(trace) && Enabled(trace[|trace| - 1], step)
    ensures Run(longer) && |longer| > 0 && longer[|longer| - 1] == Apply(trace[|trace| - 1], step)
  {
    hide Enabled, Apply;
    assert Next(trace[|trace| - 1], Apply(trace[|trace| - 1], step));
    longer := trace + [Apply(trace[|trace| - 1], step)];
  }

  /** A run with one client that closes the writer and writes a byte after it has left. */
  lemma LateWriteIsLost() returns (trace: seq<State>)
    ensures Run(trace)
    ensures var s := trace[|trace| - 1]; s.writer.Done? && s.closes == 1 && s.file == [] && Flatten(s.sessions) == [7]
  {
    hide Run, Flatten;
    trace := ClosedRun();
    trace := RunExtends(trace, Lock(0));
    trace := RunExtends(trace, Write(0, [7]));
    var none: seq<seq<byte>> := [];
    FlattenExtendLast([[]], [7]);
    FlattenNewSession(none);
    assert none + [[]] == [[]] && Flatten(none) + [7] == [7] by {
      FlattenNone();
    }
  }

  lemma FlattenNone()
    ensures Flatten([]) == []
  {
  }

  lemma CloseCalled() returns (trace: seq<State>)
    ensures Run(trace)
    ensures trace[|trace| - 1] == State(Free, 1, [], CLOSE, 2, true, [], [], 0, 0, Relock, [Idle], Owning, [])
  {
    trace := [State(Free, 0, [], RUNNING, 2, true, [], [], 0, 0, Relock, [Idle], Owning, [])];
    assert Run(trace);
    hide Run, Flatten;
    trace := RunExtends(trace, Close(0));
    trace := RunExtends(trace, Unlock(0));
    trace := RunExtends(trace, Signal(0));
  }

  lemma ClosedRun() returns (trace: seq<State>)
    ensures Run(trace)
    ensures trace[|trace| - 1] == State(Free, 1, [], CLOSE, 1, true, [], [], 1, 0, Done, [Idle], Owning, [])
  {
    hide Run, Flatten;
    trace := CloseCalled();
    trace := RunExtends(trace, WriterLock);
    trace := RunExtends(trace, WriterTop);
    trace := RunExtends(trace, WriterFree);
  }

  // ---------------------------------------------------------------------------------------------
  // The writer thread ends whatever the scheduler does
  // ---------------------------------------------------------------------------------------------

  /** The steps that lead from each state of a run to the next one. */
  ghost predicate Follows(trace: seq<State>, steps: seq<Step>) {
    |trace| == |steps| + 1
    && forall k, k' {:trigger Took(trace[k], steps[k], trace[k'])} ::
         0 <= k < k' < |trace| && k' == k + 1 ==> Took(trace[k], steps[k], trace[k'])
  }

  ghost predicate Took(s: State, step: Step, t: State) {
    Enabled(s, step) && t == Apply(s, step)
  }

  predicate OfWriter(step: Step) {
    step.WriterLock? || step.WriterTop? || step.WriterWake? || step.WriterWrite? || step.WriterFree?
  }

  function WriterSteps(steps: seq<Step>): nat {
    if steps == [] then 0
    else WriterSteps(steps[..|steps| - 1]) + if OfWriter(steps[|steps| - 1]) then 1 else 0
  }

  function BytesWritten(steps: seq<Step>): nat {
    if steps == [] then 0
    else
      var last := steps[|steps| - 1];
      BytesWritten(steps[..|steps| - 1]) + if last.Write? then |last.data| else 0
  }

  /** How many steps the writer thread may still take. */
  function WriterWork(s: State): nat {
    3 * |s.queue| + StepsLeft(s.writer)
  }

  lemma WorkStep(s: State, step: Step)
    requires Enabled(s, step) && !s.finish.RUNNING?
    ensures var t := Apply(s, step);
            && !t.finish.RUNNING?
            && WriterWork(t) + (if OfWriter(step) then 1 else 0) <= WriterWork(s) + if step.Write? then 3 * |step.data| else 0
  {
    hide Flatten, ExtendLast;
  }

  /**
    Once `finish` is set, the writer thread takes only so many more steps, however the calls of the
    clients are interleaved with them: three for every byte it still has to write, and four.
   */
  lemma {:induction false} WriterStepsBounded(trace: seq<State>, steps: seq<Step>)
    requires Follows(trace, steps) && !trace[0].finish.RUNNING?
    ensures var last := trace[|trace| - 1];
            !last.finish.RUNNING? && WriterSteps(steps) + WriterWork(last) <= WriterWork(trace[0]) + 3 * BytesWritten(steps)
    decreases |steps|
  {
    hide WriterWork, Enabled, Apply;
    if steps != [] {
      var n := |steps| - 1;
      FollowsPrefix(trace, steps);
      WriterStepsBounded(trace[..n + 1], steps[..n]);
      WorkStep(trace[n], steps[n]);
    }
  }

  lemma FollowsPrefix(trace: seq<State>, steps: seq<Step>)
    requires Follows(trace, steps) && steps != []
    ensures Follows(trace[..|steps|], steps[..|steps| - 1])
    ensures Took(trace[|steps| - 1], steps[|steps| - 1], trace[|steps|])
  {
    hide Took;
    var n := |steps| - 1;
    var t, u := trace[..n + 1], steps[..n];
    forall k, k' | 0 <= k < k' < |t| && k' == k + 1
      ensures Took(t[k], u[k], t[k'])
    {
      assert Took(trace[k], steps[k], trace[k']);
    }
  }

  /** Steps that go on with what has begun: everything but new calls and writes. */
  predicate GoesOn(step: Step) {
    OfWriter(step) || step.Unlock? || step.Signal? || step.Join? || step.DropReference? || step.FinishFree?
  }

  function CallWork(pc: ClientPc): nat {
    match pc
    case Waiting => 3
    case Session => 2
    case Closing => 2
    case Freeing => 2
    case Signalling(join) => if join then 2 else 1
    case FreeDecided(_) => 1
    case Joining => 1
    case Idle => 0
    case Gone => 0
  }

  function CallsWork(pcs: seq<ClientPc>): nat {
    if pcs == [] then 0 else CallsWork(pcs[..|pcs| - 1]) + CallWork(pcs[|pcs| - 1])
  }

  lemma {:induction false} CallsWorkUpdate(pcs: seq<ClientPc>, c: nat, pc: ClientPc)
    requires c < |pcs|
    ensures CallsWork(pcs[c := pc]) == CallsWork(pcs) - CallWork(pcs[c]) + CallWork(pc)
  {
    var n := |pcs| - 1;
    if c == n {
      assert pcs[c := pc][..n] == pcs[..n];
    } else {
      assert pcs[c := pc][..n] == pcs[..n][c := pc];
      CallsWorkUpdate(pcs[..n], c, pc);
    }
  }

  function Work(s: State): nat {
    WriterWork(s) + CallsWork(s.clients)
  }

  lemma GoingOnIsWork(s: State, step: Step)
    requires Enabled(s, step) && GoesOn(step) && !s.finish.RUNNING?
    ensures !Apply(s, step).finish.RUNNING? && Work(Apply(s, step)) < Work(s)
  {
    hide Flatten, ExtendLast, CallsWork;
    WorkStep(s, step);
    match step
    case Unlock(c) => CallsWorkUpdate(s.clients, c, Signalling(s.clients[c].Waiting?));
    case Signal(c) => CallsWorkUpdate(s.clients, c, if s.clients[c].join then Joining else Idle);
    case Join(c) => CallsWorkUpdate(s.clients, c, Idle);
    case DropReference(c) => CallsWorkUpdate(s.clients, c, FreeDecided(s.refcount - 1 == 0));
    case FinishFree(c) => CallsWorkUpdate(s.clients, c, Gone);
    case _ =>
  }

  /** As long as the writer thread has not ended, it or a call that has begun can go on. */
  lemma SomethingGoesOn(s: State) returns (step: Step)
    requires Inv(s) && !s.finish.RUNNING? && !s.writer.Done?
    ensures GoesOn(step) && Enabled(s, step)
  {
    hide Flatten, DataInv, CloseInv;
    if s.writer.Parked? && s.semaphore == 0 {
      var c :| 0 <= c < |s.clients| && s.clients[c].WillSignal();
      step := if s.clients[c].Signalling? then Signal(c) else Unlock(c);
    } else if s.writer.Relock? && !s.lock.Free? {
      var c := s.lock.id;
      assert s.clients[c].HoldsLock();
      step := if s.clients[c].Freeing? then DropReference(c) else Unlock(c);
    } else {
      step := WriterStep(s);
    }
  }

  lemma {:induction false} GoingOnEnds(trace: seq<State>, steps: seq<Step>)
    requires Follows(trace, steps) && Inv(trace[0]) && !trace[0].finish.RUNNING?
    requires forall k :: 0 <= k < |steps| ==> GoesOn(steps[k])
    ensures var last := trace[|trace| - 1];
            && Inv(last) && !last.finish.RUNNING? && |steps| + Work(last) <= Work(trace[0])
            && (!WriterLeft(last) || WriterLeft(trace[0]) || last.queue == [])
    decreases |steps|
  {
    hide Work, Inv, Enabled, Apply;
    if steps != [] {
      var n := |steps| - 1;
      FollowsPrefix(trace, steps);
      GoingOnEnds(trace[..n + 1], steps[..n]);
      GoingOnIsWork(trace[n], steps[n]);
      InvStep(trace[n], steps[n]);
      LeavesWithNothing(trace[n], steps[n]);
    }
  }

  lemma LeavesWithNothing(s: State, step: Step)
    requires Enabled(s, step) && GoesOn(step)
    ensures WriterLeft(Apply(s, step)) && (!WriterLeft(s) || s.queue == []) ==> Apply(s, step).queue == []
  {
  }

  /**
    From any moment after `finish` was set, if the clients only go on with the calls they are in, then
    whatever the scheduler does there are no more than `Work` steps, and when none is left to take, the
    writer thread has ended and everything is in the file.
   */
  lemma ShutdownTerminates(trace: seq<State>, steps: seq<Step>)
    requires Follows(trace, steps) && Inv(trace[0]) && !trace[0].finish.RUNNING? && !WriterLeft(trace[0])
    requires forall k :: 0 <= k < |steps| ==> GoesOn(steps[k])
    ensures |steps| <= Work(trace[0])
    ensures var last := trace[|trace| - 1];
            (forall step :: GoesOn(step) ==> !Enabled(last, step)) ==>
              last.writer.Done? && last.file == Flatten(last.sessions)
  {
    hide Enabled, Work;
    GoingOnEnds(trace, steps);
    var last := trace[|trace| - 1];
    if !last.writer.Done? {
      var step := SomethingGoesOn(last);
    } else {
      assert last.file + [] + [] == last.file;
    }
  }
}

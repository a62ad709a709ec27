/**
  The asynchronous writer as a concurrent protocol: one writer thread and any number of client
  threads, interleaved step by step around a lock, a counting semaphore, the `finish` flag and the
  reference count. The queue stands for the ring buffer, as proved in `AioRing`.
 */
module AioProtocol {
  import opened Machine
  import opened AioRing

  datatype Finish = RUNNING | CLOSE | EXIT

  datatype Holder = Free | Writer | Client(id: nat)

  /** Where the writer thread is in `aio_thread`. Only `Top` holds the lock. */
  datatype WriterPc =
    | Relock                  // about to take the lock and go to the top of the loop
    | Top                     // at the top of the loop
    | Parked                  // in `sphore_wait`
    | Copied                  // lock released, about to write the local buffer to the file
    | Unref(doFree: bool)     // reference dropped, lock released, about to free the block or not
    | Done

  /** Where a client thread is. */
  datatype ClientPc =
    | Idle
    | Session                 // between `aio_lock` and `aio_unlock`
    | Closing                 // in the locked scope of `aio_close`
    | Waiting                 // in the locked scope of `aio_wait`
    | Signalling(join: bool)  // lock released, about to signal; then `aio_wait` goes on to join
    | Joining                 // in `thread_wait`
    | Freeing                 // in the locked part of `aio_free`
    | FreeDecided(doFree: bool)
    | Gone
  {
    predicate HoldsLock() {
      Session? || Closing? || Waiting? || Freeing?
    }

    /** Will call `sphore_signal` before doing anything else that matters to the writer thread. */
    predicate WillSignal() {
      Session? || Closing? || Waiting? || Signalling?
    }

    /** Is not using the shared block, and never has to again before its next call. */
    predicate OffBlock() {
      Idle? || Joining? || Gone? || FreeDecided?
    }
  }

  /** The callers' side of the block's life: `aio_free` not yet called, in progress, reference dropped. */
  datatype Owner = Owning | Leaving(who: nat) | Left(who: nat)

  datatype State = State(
    lock: Holder,
    semaphore: nat,
    queue: seq<byte>,
    finish: Finish,
    refcount: int,
    thread: bool,               // the thread handle has not been waited for or detached
    local: seq<byte>,           // the writer thread's own buffer
    file: seq<byte>,            // everything handed to `io_write`, in order
    closes: nat,                // calls of `io_close`
    frees: nat,                 // times the block was freed
    writer: WriterPc,
    clients: seq<ClientPc>,
    owner: Owner,
    sessions: seq<seq<byte>>)   // history: what was written under each `aio_lock`, in lock order

  predicate Init(s: State) {
    && s.lock.Free? && s.semaphore == 0 && s.queue == [] && s.finish.RUNNING?
    && s.refcount == 2 && s.thread && s.local == [] && s.file == []
    && s.closes == 0 && s.frees == 0 && s.writer.Relock?
    && (forall c :: 0 <= c < |s.clients| ==> s.clients[c].Idle?)
    && s.owner.Owning? && s.sessions == []
  }

  // ---------------------------------------------------------------------------------------------
  // Steps
  // ---------------------------------------------------------------------------------------------

  datatype Step =
    | WriterLock | WriterTop | WriterWake | WriterWrite | WriterFree
    | Lock(c: nat) | Write(c: nat, data: seq<byte>) | Unlock(c: nat) | Signal(c: nat) | Join(c: nat)
    | Close(c: nat) | Wait(c: nat) | StartFree(c: nat) | DropReference(c: nat) | FinishFree(c: nat)

  predicate CanCall(s: State, c: nat) {
    c < |s.clients| && s.clients[c].Idle? && s.lock.Free? && s.owner.Owning?
  }

  /**
    Which steps can be taken. Two obligations of the callers are built in: no call on the block once
    `aio_free` has been called or while another call is on its way when it is, and `aio_wait` only
    once.
   */
  predicate Enabled(s: State, step: Step) {
    match step
    case WriterLock => s.writer.Relock? && s.lock.Free?
    case WriterTop => s.writer.Top?
    case WriterWake => s.writer.Parked? && s.semaphore > 0
    case WriterWrite => s.writer.Copied?
    case WriterFree => s.writer.Unref?
    case Lock(c) => CanCall(s, c)
    case Write(c, data) => c < |s.clients| && s.clients[c].Session?
    case Unlock(c) => c < |s.clients| && (s.clients[c].Session? || s.clients[c].Closing? || s.clients[c].Waiting?)
    case Signal(c) => c < |s.clients| && s.clients[c].Signalling?
    case Join(c) => c < |s.clients| && s.clients[c].Joining? && s.writer.Done?
    case Close(c) => CanCall(s, c)
    case Wait(c) => CanCall(s, c) && s.thread
    case StartFree(c) => CanCall(s, c) && forall d :: 0 <= d < |s.clients| ==> s.clients[d].Idle?
    case DropReference(c) => c < |s.clients| && s.clients[c].Freeing?
    case FinishFree(c) => c < |s.clients| && s.clients[c].FreeDecided?
  }

  function At(s: State, c: nat, pc: ClientPc): State
    requires c < |s.clients|
  {
    s.(clients := s.clients[c := pc])
  }

  /** One pass over the top of the loop of `aio_thread`, up to the next point where the lock is released. */
  function AtTop(s: State): State {
    if s.queue == [] then
      if !s.finish.RUNNING? then
        s.(closes := if s.finish.CLOSE? then s.closes + 1 else s.closes,
           refcount := s.refcount - 1,
           lock := Free,
           writer := Unref(s.refcount - 1 == 0))
      else
        s.(lock := Free, writer := Parked)
    else
      s.(local := Chunk(s.queue), queue := AfterChunk(s.queue), lock := Free, writer := Copied)
  }

  function Apply(s: State, step: Step): State
    requires Enabled(s, step)
  {
    match step
    case WriterLock => s.(lock := Writer, writer := Top)
    case WriterTop => AtTop(s)
    case WriterWake => s.(semaphore := s.semaphore - 1, writer := Relock)
    case WriterWrite => s.(file := s.file + s.local, local := [], writer := Relock)
    case WriterFree => s.(frees := if s.writer.doFree then s.frees + 1 else s.frees, writer := Done)
    case Lock(c) => At(s, c, Session).(lock := Client(c), sessions := s.sessions + [[]])
    case Write(c, data) => s.(queue := s.queue + data, sessions := ExtendLast(s.sessions, data))
    case Unlock(c) => At(s, c, Signalling(s.clients[c].Waiting?)).(lock := Free)
    case Signal(c) => At(s, c, if s.clients[c].join then Joining else Idle).(semaphore := s.semaphore + 1)
    case Join(c) => At(s, c, Idle)
    case Close(c) => At(s, c, Closing).(lock := Client(c), finish := CLOSE)
    case Wait(c) =>
      At(s, c, Waiting).(lock := Client(c), thread := false,
                         finish := if s.finish.RUNNING? then EXIT else s.finish)
    case StartFree(c) => At(s, c, Freeing).(lock := Client(c), thread := false, owner := Leaving(c))
    case DropReference(c) =>
      At(s, c, FreeDecided(s.refcount - 1 == 0)).(refcount := s.refcount - 1, lock := Free, owner := Left(c))
    case FinishFree(c) =>
      At(s, c, Gone).(frees := if s.clients[c].doFree then s.frees + 1 else s.frees)
  }

  function ExtendLast(sessions: seq<seq<byte>>, data: seq<byte>): seq<seq<byte>> {
    if sessions == [] then [data] else sessions[|sessions| - 1 := sessions[|sessions| - 1] + data]
  }

  ghost predicate Next(s: State, t: State) {
    exists step :: Enabled(s, step) && t == Apply(s, step)
  }

  /** A run of the protocol: any finite interleaving of steps from the state `aio_new` returns. */
  ghost predicate Run(trace: seq<State>) {
    && trace != [] && Init(trace[0])
    && forall i, j {:trigger Next(trace[i], trace[j])} :: 0 <= i < j < |trace| && j == i + 1 ==> Next(trace[i], trace[j])
  }

  // ---------------------------------------------------------------------------------------------
  // The invariant
  // ---------------------------------------------------------------------------------------------

  function Flatten(parts: seq<seq<byte>>): seq<byte> {
    if parts == [] then [] else Flatten(parts[..|parts| - 1]) + parts[|parts| - 1]
  }

  predicate WriterLeft(s: State) {
    s.writer.Unref? || s.writer.Done?
  }

  /** A thread that has dropped the last reference and is about to free the block. */
  ghost predicate WriterWillFree(s: State) {
    s.writer.Unref? && s.writer.doFree
  }

  ghost predicate CallerWillFree(s: State) {
    s.owner.Left? && s.owner.who < |s.clients| && s.clients[s.owner.who] == FreeDecided(true)
  }

  /** The lock is held by whoever is in a locked section, and by nobody else. */
  ghost predicate LockInv(s: State) {
    && (s.lock.Writer? <==> s.writer.Top?)
    && (forall c :: 0 <= c < |s.clients| ==> (s.clients[c].HoldsLock() <==> s.lock == Client(c)))
    && (s.lock.Client? ==> s.lock.id < |s.clients|)
  }

  /** No byte is lost, duplicated or reordered. */
  ghost predicate DataInv(s: State) {
    && s.file + s.local + s.queue == Flatten(s.sessions)
    && (s.local != [] ==> s.writer.Copied?)
  }

  /** No wake-up is lost. */
  ghost predicate WakeInv(s: State) {
    s.writer.Parked? && s.semaphore == 0 && (forall c :: 0 <= c < |s.clients| ==> !s.clients[c].WillSignal()) ==>
      s.queue == [] && s.finish.RUNNING?
  }

  /** The file is closed, and the writer thread leaves, only in order. */
  ghost predicate CloseInv(s: State) {
    && (WriterLeft(s) ==> !s.finish.RUNNING?)
    && s.closes <= 1
    && (s.closes == 1 ==> WriterLeft(s) && s.finish.CLOSE?)
  }

  /** Two owners, one reference each; the block is freed by the last to leave. */
  ghost predicate OwnerInv(s: State) {
    && s.refcount == (if WriterLeft(s) then 0 else 1) + (if s.owner.Left? then 0 else 1)
    && (s.owner.Owning? ==> forall c :: 0 <= c < |s.clients| ==>
          !s.clients[c].Freeing? && !s.clients[c].FreeDecided? && !s.clients[c].Gone?)
    && (s.owner.Leaving? ==> s.lock == Client(s.owner.who) && s.owner.who < |s.clients|)
    && (s.owner.Left? ==> s.owner.who < |s.clients|)
    && (s.owner.Left? ==> s.clients[s.owner.who].FreeDecided? || s.clients[s.owner.who].Gone?)
    && (!s.owner.Owning? ==> forall c :: 0 <= c < |s.clients| && c != s.owner.who ==> s.clients[c].Idle?)
    && (s.owner.Leaving? ==> s.clients[s.owner.who].Freeing?)
    && s.frees + (if WriterWillFree(s) then 1 else 0) + (if CallerWillFree(s) then 1 else 0)
         == (if WriterLeft(s) && s.owner.Left? then 1 else 0)
  }

  ghost predicate Inv(s: State) {
    LockInv(s) && DataInv(s) && WakeInv(s) && CloseInv(s) && OwnerInv(s)
  }

  lemma InitInv(s: State)
    requires Init(s)
    ensures Inv(s)
  {
  }

  lemma LockStep(s: State, step: Step)
    requires Enabled(s, step) && LockInv(s)
    ensures LockInv(Apply(s, step))
  {
    hide Chunk, AfterChunk, Flatten, ExtendLast;
  }

  lemma FlattenNewSession(sessions: seq<seq<byte>>)
    ensures Flatten(sessions + [[]]) == Flatten(sessions)
  {
    assert (sessions + [[]])[..|sessions|] == sessions;
  }

  lemma FlattenExtendLast(sessions: seq<seq<byte>>, data: seq<byte>)
    ensures Flatten(ExtendLast(sessions, data)) == Flatten(sessions) + data
  {
    if sessions != [] {
      var last := |sessions| - 1;
      assert ExtendLast(sessions, data)[..last] == sessions[..last];
      assert Flatten(sessions[..last]) + (sessions[last] + data) == Flatten(sessions) + data;
    }
  }

  lemma DataStep(s: State, step: Step)
    requires Enabled(s, step) && DataInv(s)
    ensures DataInv(Apply(s, step))
  {
    match step
    case Lock(c) => FlattenNewSession(s.sessions);
    case Write(c, data) =>
      FlattenExtendLast(s.sessions, data);
      assert s.file + s.local + (s.queue + data) == (s.file + s.local + s.queue) + data;
    case WriterTop => DataAtTop(s);
    case _ =>
  }

  lemma DataAtTop(s: State)
    requires s.writer.Top? && DataInv(s)
    ensures DataInv(AtTop(s))
  {
    if s.queue != [] {
      assert Chunk(s.queue) + AfterChunk(s.queue) == s.queue;
      assert s.file + Chunk(s.queue) + AfterChunk(s.queue) == s.file + [] + (Chunk(s.queue) + AfterChunk(s.queue));
    }
  }

  lemma WakeStep(s: State, step: Step)
    requires Enabled(s, step) && LockInv(s) && DataInv(s) && WakeInv(s) && OwnerInv(s)
    ensures WakeInv(Apply(s, step))
  {
    hide Flatten, ExtendLast;
    var t := Apply(s, step);
    match step
    case Lock(c) => assert t.clients[c].WillSignal();
    case Write(c, data) => assert t.clients[c].WillSignal();
    case Unlock(c) => assert t.clients[c].WillSignal();
    case Close(c) => assert t.clients[c].WillSignal();
    case Wait(c) => assert t.clients[c].WillSignal();
    case Join(c) =>
    case StartFree(c) => assert forall d :: 0 <= d < |s.clients| ==> s.clients[d].Idle?;
    case DropReference(c) =>
    case _ =>
  }

  lemma CloseStep(s: State, step: Step)
    requires Enabled(s, step) && CloseInv(s)
    ensures CloseInv(Apply(s, step))
  {
  }

  lemma OwnerStep(s: State, step: Step)
    requires Enabled(s, step) && LockInv(s) && OwnerInv(s)
    ensures OwnerInv(Apply(s, step))
  {
    hide Chunk, AfterChunk, Flatten, ExtendLast;
    match step
    case StartFree(c) =>
    case DropReference(c) =>
    case FinishFree(c) =>
    case WriterTop =>
    case _ => OtherStepsKeepOwners(s, step);
  }

  /** Steps that do not touch the references. */
  lemma OtherStepsKeepOwners(s: State, step: Step)
    requires Enabled(s, step) && LockInv(s) && OwnerInv(s)
    requires !step.StartFree? && !step.DropReference? && !step.FinishFree? && !step.WriterTop?
    ensures OwnerInv(Apply(s, step))
  {
    hide Chunk, AfterChunk, Flatten, ExtendLast;
  }

  lemma InvStep(s: State, step: Step)
    requires Enabled(s, step) && Inv(s)
    ensures Inv(Apply(s, step))
  {
    LockStep(s, step);
    DataStep(s, step);
    WakeStep(s, step);
    CloseStep(s, step);
    OwnerStep(s, step);
  }

  lemma {:induction false} RunKeepsInv(trace: seq<State>, i: nat)
    requires Run(trace) && i < |trace|
    ensures Inv(trace[i])
  {
    hide Inv, Init, Enabled, Apply;
    if i == 0 {
      InitInv(trace[0]);
    } else {
      RunKeepsInv(trace, i - 1);
      assert Next(trace[i - 1], trace[i]);
      var step :| Enabled(trace[i - 1], step) && trace[i] == Apply(trace[i - 1], step);
      InvStep(trace[i - 1], step);
    }
  }

  // ---------------------------------------------------------------------------------------------
  // What holds over every run
  // ---------------------------------------------------------------------------------------------

  /** At every moment the file, the thread's chunk and the ring together hold all writes in lock order. */
  lemma NothingLostOrReordered(trace: seq<State>, i: nat)
    requires Run(trace) && i < |trace|
    ensures var s := trace[i]; s.file + s.local + s.queue == Flatten(s.sessions)
  {
    RunKeepsInv(trace, i);
  }

  /** The parts written under one lock end up next to each other in the file, never interleaved. */
  lemma SessionsContiguous(trace: seq<State>, i: nat, k: nat)
    requires Run(trace) && i < |trace| && k < |trace[i].sessions|
    ensures var s := trace[i];
            var start := |Flatten(s.sessions[..k])|;
            var end := start + |s.sessions[k]|;
            end <= |s.file| ==> s.file[start..end] == s.sessions[k]
  {
    var s := trace[i];
    NothingLostOrReordered(trace, i);
    FlattenAt(s.sessions, k);
    var start := |Flatten(s.sessions[..k])|;
    var end := start + |s.sessions[k]|;
    if end <= |s.file| {
      assert s.file[start..end] == (s.file + s.local + s.queue)[start..end];
    }
  }

  lemma {:induction false} FlattenAt(parts: seq<seq<byte>>, k: nat)
    requires k < |parts|
    ensures var start := |Flatten(parts[..k])|;
            && start + |parts[k]| <= |Flatten(parts)|
            && Flatten(parts)[start..start + |parts[k]|] == parts[k]
  {
    var front := parts[..|parts| - 1];
    if k < |front| {
      FlattenAt(front, k);
      assert front[..k] == parts[..k];
    }
  }

  /** A parked writer with nothing to wake it up has nothing to do. */
  lemma NoLostWakeUp(trace: seq<State>, i: nat)
    requires Run(trace) && i < |trace|
    requires trace[i].writer.Parked? && trace[i].semaphore == 0
    requires forall c :: 0 <= c < |trace[i].clients| ==> !trace[i].clients[c].WillSignal()
    ensures trace[i].queue == [] && trace[i].finish.RUNNING?
    ensures trace[i].file == Flatten(trace[i].sessions)
  {
    RunKeepsInv(trace, i);
    var s := trace[i];
    assert s.file + [] + [] == s.file;
  }

  /** The block is freed at most once, by the last of the two owners, and nobody uses it afterwards. */
  lemma FreedOnceByTheLast(trace: seq<State>, i: nat)
    requires Run(trace) && i < |trace|
    ensures trace[i].frees <= 1
    ensures trace[i].frees == 1 ==>
              && trace[i].lock.Free?
              && (trace[i].writer == Unref(false) || trace[i].writer.Done?)
              && trace[i].owner.Left?
              && forall c :: 0 <= c < |trace[i].clients| ==> trace[i].clients[c].OffBlock() && !trace[i].clients[c].Joining?
    ensures trace[i].writer.Done? ==>
              forall c :: 0 <= c < |trace[i].clients| && trace[i].clients[c].Gone? ==> trace[i].frees == 1
  {
    RunKeepsInv(trace, i);
  }

  /** Once the file is closed it is never written or closed again. */
  lemma {:induction false} ClosedFileIsFinal(trace: seq<State>, i: nat, j: nat)
    requires Run(trace) && i <= j < |trace| && WriterLeft(trace[i])
    ensures WriterLeft(trace[j])
    ensures trace[j].closes == trace[i].closes <= 1
    ensures trace[j].file == trace[i].file
    decreases j
  {
    hide Enabled, Apply;
    RunKeepsInv(trace, i);
    if i < j {
      ClosedFileIsFinal(trace, i, j - 1);
      assert Next(trace[j - 1], trace[j]);
      var step :| Enabled(trace[j - 1], step) && trace[j] == Apply(trace[j - 1], step);
      AfterLeaving(trace[j - 1], step);
    }
  }

  lemma AfterLeaving(s: State, step: Step)
    requires Enabled(s, step) && WriterLeft(s)
    ensures var t := Apply(s, step); WriterLeft(t) && t.closes == s.closes && t.file == s.file
  {
    hide Flatten, Chunk, AfterChunk, ExtendLast;
  }

  /** Nobody starts writing once the end has been announced: what the writer asks of its callers. */
  ghost predicate Orderly(trace: seq<State>) {
    forall i :: 0 < i < |trace| && |trace[i].sessions| > |trace[i - 1].sessions| ==> trace[i - 1].finish.RUNNING?
  }

  ghost predicate OrderlyInv(s: State) {
    && (!s.finish.RUNNING? ==> forall c :: 0 <= c < |s.clients| ==> !s.clients[c].Session?)
    && (WriterLeft(s) ==> s.queue == [])
  }

  lemma OrderlyStep(s: State, step: Step)
    requires Enabled(s, step) && LockInv(s) && CloseInv(s) && OrderlyInv(s)
    requires step.Lock? ==> s.finish.RUNNING?
    ensures OrderlyInv(Apply(s, step))
  {
    if step.Close? || step.Wait? {
      assert forall c :: 0 <= c < |s.clients| ==> !s.clients[c].HoldsLock();
    }
  }

  lemma {:induction false} OrderlyRunKeepsInv(trace: seq<State>, i: nat)
    requires Run(trace) && Orderly(trace) && i < |trace|
    ensures Inv(trace[i]) && OrderlyInv(trace[i])
  {
    RunKeepsInv(trace, i);
    if i != 0 {
      OrderlyRunKeepsInv(trace, i - 1);
      var s, t := trace[i - 1], trace[i];
      assert Next(s, t);
      var step :| Enabled(s, step) && t == Apply(s, step);
      OrderlyStep(s, step);
    }
  }

  /**
    When the writer thread has left, the file holds every byte that was written, except what was
    written after it left: all of it exactly when the ring is empty, and always in orderly runs.
   */
  lemma FinishedFileIsComplete(trace: seq<State>, i: nat)
    requires Run(trace) && i < |trace| && WriterLeft(trace[i])
    ensures trace[i].file + trace[i].queue == Flatten(trace[i].sessions)
    ensures trace[i].file == Flatten(trace[i].sessions) <==> trace[i].queue == []
    ensures Orderly(trace) ==> trace[i].file == Flatten(trace[i].sessions)
  {
    RunKeepsInv(trace, i);
    var s := trace[i];
    assert s.file + [] == s.file;
    assert |s.file + s.queue| == |s.file| + |s.queue|;
    if Orderly(trace) {
      OrderlyRunKeepsInv(trace, i);
    }
  }

  // ---------------------------------------------------------------------------------------------
  // The writer thread comes to an end
  // ---------------------------------------------------------------------------------------------

  ghost predicate Quiet(s: State) {
    forall c :: 0 <= c < |s.clients| ==> !s.clients[c].HoldsLock() && !s.clients[c].WillSignal()
  }

  function WriterStep(s: State): Step
    requires !s.writer.Done?
  {
    match s.writer
    case Relock => WriterLock
    case Top => WriterTop
    case Parked => WriterWake
    case Copied => WriterWrite
    case Unref(_) => WriterFree
  }

  ghost predicate WriterMoves(s: State, t: State) {
    !s.writer.Done? && Enabled(s, WriterStep(s)) && t == Apply(s, WriterStep(s))
  }

  /** How many steps the writer thread may still take from its place in the loop, besides 3 a byte. */
  function StepsLeft(pc: WriterPc): nat {
    match pc
    case Copied => 4
    case Parked => 4
    case Relock => 3
    case Top => 2
    case Unref(_) => 1
    case Done => 0
  }

  /**
    Once `finish` is set, the writer thread left to itself is never blocked: it drains the ring,
    closes the file if asked to, and terminates within a bounded number of steps.
   */
  lemma {:induction false} WriterDrainsAndTerminates(s: State) returns (trace: seq<State>)
    requires Inv(s) && Quiet(s) && !s.finish.RUNNING? && !WriterLeft(s)
    ensures trace != [] && trace[0] == s && |trace| <= 1 + 3 * |s.queue| + StepsLeft(s.writer)
    ensures forall i :: 0 < i < |trace| ==> WriterMoves(trace[i - 1], trace[i])
    ensures var last := trace[|trace| - 1];
            && last.writer.Done?
            && last.sessions == s.sessions && last.file == Flatten(s.sessions)
            && last.closes == (if s.finish.CLOSE? then 1 else 0)
            && last.frees == (if s.owner.Left? then 1 else 0)
    decreases |s.queue|, StepsLeft(s.writer)
  {
    hide Inv, Quiet, Apply, Enabled, Flatten, StepsLeft, WriterStep;
    var step := WriterStep(s);
    QuietStep(s);
    InvStep(s, step);
    var t := Apply(s, step);
    if WriterLeft(t) {
      LeavesQuietly(t);
      trace := [s, t, Apply(t, WriterFree)];
    } else {
      var rest := WriterDrainsAndTerminates(t);
      trace := [s] + rest;
    }
  }

  /** With no client in a call the writer thread is not blocked, and gets closer to its end. */
  lemma QuietStep(s: State)
    requires Inv(s) && Quiet(s) && !s.finish.RUNNING? && !WriterLeft(s)
    ensures Enabled(s, WriterStep(s))
    ensures var t := Apply(s, WriterStep(s));
            && Quiet(t) && t.finish == s.finish && t.sessions == s.sessions && t.owner == s.owner
            && (WriterLeft(t) ==> StepsLeft(s.writer) >= 2 && t.closes == if s.finish.CLOSE? then 1 else 0)
            && 3 * |t.queue| + StepsLeft(t.writer) < 3 * |s.queue| + StepsLeft(s.writer)
            && (|t.queue| < |s.queue| || (t.queue == s.queue && StepsLeft(t.writer) < StepsLeft(s.writer)))
            && (WriterLeft(t) ==> t.writer == Unref(t.owner.Left?) && t.queue == [] && t.local == [])
  {
    hide Flatten;
  }

  lemma LeavesQuietly(t: State)
    requires Inv(t) && t.writer == Unref(t.owner.Left?) && t.queue == [] && t.local == []
    ensures WriterStep(t) == WriterFree && Enabled(t, WriterFree)
    ensures var last := Apply(t, WriterFree);
            && last.writer.Done? && last.sessions == t.sessions && last.file == Flatten(t.sessions)
            && last.closes == t.closes && last.frees == (if t.owner.Left? then 1 else 0)
  {
    hide Flatten;
    assert t.file + t.local + t.queue == t.file;
    InvStep(t, WriterFree);
  }
}

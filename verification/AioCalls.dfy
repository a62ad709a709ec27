/**
  What the calls of the clients amount to over a whole run: which of them end the writer thread, whether
  the file is closed, and when a caller that waits is let go.
 */
module AioCalls {
  import opened Machine
  import opened AioProtocol
  import opened AioShutdown

  /** The steps taken from the block that `aio_new` returns. */
  ghost predicate Calls(trace: seq<State>, steps: seq<Step>) {
    Follows(trace, steps) && Init(trace[0])
  }

  /** Somebody has called `aio_close`, `aio_wait`, `aio_free`. */
  predicate ClosedBy(steps: seq<Step>) {
    exists k :: 0 <= k < |steps| && steps[k].Close?
  }

  predicate WaitedBy(steps: seq<Step>) {
    exists k :: 0 <= k < |steps| && steps[k].Wait?
  }

  predicate FreedBy(steps: seq<Step>) {
    exists k :: 0 <= k < |steps| && steps[k].StartFree?
  }

  /** `aio_close` was called while the writer thread was still there. */
  predicate ClosedInTime(trace: seq<State>, steps: seq<Step>)
    requires |steps| <= |trace|
  {
    exists k :: 0 <= k < |steps| && steps[k].Close? && !WriterLeft(trace[k])
  }

  function Signals(steps: seq<Step>): nat {
    if steps == [] then 0 else Signals(steps[..|steps| - 1]) + if steps[|steps| - 1].Signal? then 1 else 0
  }

  function Wakes(steps: seq<Step>): nat {
    if steps == [] then 0 else Wakes(steps[..|steps| - 1]) + if steps[|steps| - 1].WriterWake? then 1 else 0
  }

  lemma CallsPrefix(trace: seq<State>, steps: seq<Step>)
    requires Calls(trace, steps) && steps != []
    ensures var n := |steps| - 1;
            Calls(trace[..n + 1], steps[..n]) && Took(trace[n], steps[n], trace[n + 1])
  {
    hide Took, Init;
    FollowsPrefix(trace, steps);
  }

  /**
    The calls decide what the state says: a close is never taken back, a wait ends the thread unless a
    close does, and the semaphore counts the signals that nobody has waited for.
   */
  lemma {:induction false} StateOfCalls(trace: seq<State>, steps: seq<Step>)
    requires Calls(trace, steps)
    ensures var s := trace[|steps|];
            && s.finish == (if ClosedBy(steps) then CLOSE else if WaitedBy(steps) then EXIT else RUNNING)
            && (s.thread <==> !WaitedBy(steps) && !FreedBy(steps))
            && s.semaphore + Wakes(steps) == Signals(steps)
    decreases |steps|
  {
    if steps != [] {
      var n := |steps| - 1;
      CallsPrefix(trace, steps);
      StateOfCalls(trace[..n + 1], steps[..n]);
      AskedSnoc(steps[..n], steps[n]);
      assert steps == steps[..n] + [steps[n]];
      FlagsStep(trace[n], steps[n]);
    }
  }

  lemma AskedSnoc(steps: seq<Step>, step: Step)
    ensures ClosedBy(steps + [step]) <==> ClosedBy(steps) || step.Close?
    ensures WaitedBy(steps + [step]) <==> WaitedBy(steps) || step.Wait?
    ensures FreedBy(steps + [step]) <==> FreedBy(steps) || step.StartFree?
  {
    var longer := steps + [step];
    assert longer[|steps|] == step;
    assert forall k :: 0 <= k < |steps| ==> longer[k] == steps[k];
  }

  lemma FlagsStep(s: State, step: Step)
    requires Enabled(s, step)
    ensures var t := Apply(s, step);
            && t.finish == (if step.Close? then CLOSE else if step.Wait? && s.finish.RUNNING? then EXIT else s.finish)
            && t.thread == (s.thread && !step.Wait? && !step.StartFree?)
            && t.semaphore + (if step.WriterWake? then 1 else 0) == s.semaphore + if step.Signal? then 1 else 0
  {
    hide ExtendLast;
  }

  /** The data of all writes, in the order in which they were made. */
  function DataOf(steps: seq<Step>): seq<byte> {
    if steps == [] then []
    else DataOf(steps[..|steps| - 1]) + if steps[|steps| - 1].Write? then steps[|steps| - 1].data else []
  }

  /** At every moment the file, the thread's chunk and the ring together are the data of the writes. */
  lemma {:induction false} HoldsWhatWasWritten(trace: seq<State>, steps: seq<Step>)
    requires Calls(trace, steps)
    ensures var s := trace[|steps|]; s.file + s.local + s.queue == DataOf(steps) == Flatten(s.sessions)
    decreases |steps|
  {
    hide Enabled, Apply, Flatten;
    CallsKeepInv(trace, steps);
    if steps == [] {
      FlattenNone();
    } else {
      var n := |steps| - 1;
      CallsPrefix(trace, steps);
      HoldsWhatWasWritten(trace[..n + 1], steps[..n]);
      SessionsStep(trace[n], steps[n]);
    }
  }

  lemma SessionsStep(s: State, step: Step)
    requires Enabled(s, step)
    ensures Flatten(Apply(s, step).sessions) == Flatten(s.sessions) + if step.Write? then step.data else []
  {
    hide Flatten;
    match step
    case Lock(c) => FlattenNewSession(s.sessions);
    case Write(c, data) => FlattenExtendLast(s.sessions, data);
    case _ =>
  }

  lemma ClosedInTimeSnoc(trace: seq<State>, steps: seq<Step>)
    requires |trace| == |steps| + 1 && steps != []
    ensures var n := |steps| - 1;
            ClosedInTime(trace, steps) <==>
              ClosedInTime(trace[..n + 1], steps[..n]) || (steps[n].Close? && !WriterLeft(trace[n]))
  {
    hide WriterLeft;
    var n := |steps| - 1;
    assert forall k :: 0 <= k < n ==> steps[..n][k] == steps[k] && trace[..n + 1][k] == trace[k];
  }

  /** The file is closed when the writer thread leaves, exactly if somebody has called `aio_close` by then. */
  lemma {:induction false} ClosesIffAsked(trace: seq<State>, steps: seq<Step>)
    requires Calls(trace, steps)
    ensures var s := trace[|steps|];
            && s.closes == (if WriterLeft(s) && ClosedInTime(trace, steps) then 1 else 0)
            && (!WriterLeft(s) ==> (ClosedInTime(trace, steps) <==> s.finish.CLOSE?))
    decreases |steps|
  {
    if steps != [] {
      var n := |steps| - 1;
      CallsPrefix(trace, steps);
      ClosesIffAsked(trace[..n + 1], steps[..n]);
      ClosedInTimeSnoc(trace, steps);
      hide ClosedInTime;
      ClosesStep(trace[n], steps[n]);
    }
  }

  lemma ClosesStep(s: State, step: Step)
    requires Enabled(s, step)
    ensures var t := Apply(s, step);
            && (WriterLeft(s) ==> WriterLeft(t) && t.closes == s.closes)
            && (!WriterLeft(s) && !WriterLeft(t) ==> t.closes == s.closes)
            && (!WriterLeft(s) && WriterLeft(t) ==> t.closes == s.closes + (if s.finish.CLOSE? then 1 else 0))
            && (!WriterLeft(s) && WriterLeft(t) ==> step.WriterTop?)
            && (t.finish.CLOSE? <==> step.Close? || s.finish.CLOSE?)
  {
    hide ExtendLast;
  }

  predicate InWait(pc: ClientPc) {
    pc.Waiting? || pc == Signalling(true) || pc.Joining?
  }

  /** Whoever has called `aio_wait` gets no further before the writer thread has ended. */
  lemma {:induction false} WaitReturnsLast(trace: seq<State>, steps: seq<Step>, k: nat, c: nat)
    requires Follows(trace, steps) && k < |steps| && steps[k] == Wait(c)
    ensures var s := trace[|steps|];
            c < |s.clients| && (InWait(s.clients[c]) || s.writer.Done?)
    decreases |steps|
  {
    hide Enabled, Apply;
    var n := |steps| - 1;
    FollowsPrefix(trace, steps);
    if k < n {
      WaitReturnsLast(trace[..n + 1], steps[..n], k, c);
      WaitStep(trace[n], steps[n], c);
    } else {
      WaitBegins(trace[n], c);
    }
  }

  lemma WaitBegins(s: State, c: nat)
    requires Enabled(s, Wait(c))
    ensures var t := Apply(s, Wait(c)); c < |t.clients| && InWait(t.clients[c])
  {
  }

  lemma WaitStep(s: State, step: Step, c: nat)
    requires Enabled(s, step) && c < |s.clients| && (InWait(s.clients[c]) || s.writer.Done?)
    ensures var t := Apply(s, step); c < |t.clients| && (InWait(t.clients[c]) || t.writer.Done?)
  {
    hide ExtendLast;
  }

  /**
    A run in which somebody has closed or waited, and from step `n` on the clients only go on with the
    calls they are in: it ends, with the writer thread gone and the file complete, closed exactly if a
    close came in time.
   */
  lemma AskedWriterEnds(trace: seq<State>, steps: seq<Step>, n: nat)
    requires Calls(trace, steps) && n <= |steps| && !WriterLeft(trace[n])
    requires ClosedBy(steps[..n]) || WaitedBy(steps[..n])
    requires forall k :: n <= k < |steps| ==> GoesOn(steps[k])
    ensures |steps| - n <= Work(trace[n])
    ensures var last := trace[|steps|];
            (forall step :: GoesOn(step) ==> !Enabled(last, step)) ==>
              && last.writer.Done? && last.file == Flatten(last.sessions)
              && last.closes == if ClosedInTime(trace, steps) then 1 else 0
  {
    hide Enabled, Apply, Work, Inv, GoesOn, ClosedInTime, ClosedBy, WaitedBy, Flatten, Init;
    CallsTo(trace, steps, n);
    StateOfCalls(trace[..n + 1], steps[..n]);
    CallsKeepInv(trace[..n + 1], steps[..n]);
    FollowsFrom(trace, steps, n);
    ShutdownTerminates(trace[n..], steps[n..]);
    ClosesIffAsked(trace, steps);
  }

  lemma CallsTo(trace: seq<State>, steps: seq<Step>, n: nat)
    requires Calls(trace, steps) && n <= |steps|
    ensures Calls(trace[..n + 1], steps[..n])
  {
    hide Took, Init;
    var t, u := trace[..n + 1], steps[..n];
    forall k, k' | 0 <= k < k' < |t| && k' == k + 1
      ensures Took(t[k], u[k], t[k'])
    {
      assert Took(trace[k], steps[k], trace[k']);
    }
  }

  lemma FollowsFrom(trace: seq<State>, steps: seq<Step>, n: nat)
    requires Follows(trace, steps) && n <= |steps|
    ensures Follows(trace[n..], steps[n..])
  {
    hide Took;
    var t, u := trace[n..], steps[n..];
    forall k, k' | 0 <= k < k' < |t| && k' == k + 1
      ensures Took(t[k], u[k], t[k'])
    {
      assert Took(trace[n + k], steps[n + k], trace[n + k']);
    }
  }

  lemma {:induction false} CallsKeepInv(trace: seq<State>, steps: seq<Step>)
    requires Calls(trace, steps)
    ensures Inv(trace[|steps|])
    decreases |steps|
  {
    hide Inv, Init, Enabled, Apply;
    if steps == [] {
      InitInv(trace[0]);
    } else {
      var n := |steps| - 1;
      CallsPrefix(trace, steps);
      CallsKeepInv(trace[..n + 1], steps[..n]);
      InvStep(trace[n], steps[n]);
    }
  }
}

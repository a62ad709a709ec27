/**
  `CFutureLogger`: messages are buffered until the one call of `Set` provides the target logger, and
  go there directly from then on. Any number of `Log` calls run concurrently with `Set`, step by step.
 */
module FutureLogger {

  datatype Holder = Free | Setter | Caller(id: nat)

  /** Where the call of `Set` is. */
  datatype SetPc =
    | SetStart
    | SetLocked             // holds the lock, before the compare-and-swap
    | Flushing(next: nat)   // the target is set; hands over the buffered messages one by one
    | Cleared               // the buffer is empty again, about to release the lock
    | SetDone

  /** Where a call of `Log` is. */
  datatype LogPc =
    | LogStart
    | Direct                // found the target without the lock, about to hand the message over
    | WantLock              // found no target
    | LogLocked             // holds the lock, before looking for the target once more
    | LockedDirect          // found it this time
    | Buffering             // still found none
    | LogLeaving            // about to release the lock
    | LogDone
  {
    predicate HoldsLock() {
      LogLocked? || LockedDirect? || Buffering? || LogLeaving?
    }

    /** The message has been handed over or buffered. */
    predicate Acted() {
      LogLeaving? || LogDone?
    }
  }

  /** Messages are named by the call of `Log` they were passed to. */
  datatype State = State(
    lock: Holder,
    targetSet: bool,           // `m_pLogger` is not null
    pending: seq<nat>,         // `m_vPending`
    delivered: seq<nat>,       // what the target logger got, in order
    setter: SetPc,
    callers: seq<LogPc>,
    buffered: seq<nat>)        // history: everything that ever was buffered, in order

  predicate Init(s: State) {
    && s.lock.Free? && !s.targetSet && s.pending == [] && s.delivered == [] && s.setter.SetStart?
    && (forall c :: 0 <= c < |s.callers| ==> s.callers[c].LogStart?)
    && s.buffered == []
  }

  datatype Step =
    | SetLock | CompareAndSwap | FlushOne | Clear | SetUnlock
    | FirstLoad(c: nat) | HandOver(c: nat) | LogLock(c: nat) | SecondLoad(c: nat) | LockedHandOver(c: nat)
    | Buffer(c: nat) | LogUnlock(c: nat)

  predicate Enabled(s: State, step: Step) {
    match step
    case SetLock => s.setter.SetStart? && s.lock.Free?
    case CompareAndSwap => s.setter.SetLocked?
    case FlushOne => s.setter.Flushing? && s.setter.next < |s.pending|
    case Clear => s.setter.Flushing? && s.setter.next >= |s.pending|
    case SetUnlock => s.setter.Cleared?
    case FirstLoad(c) => c < |s.callers| && s.callers[c].LogStart?
    case HandOver(c) => c < |s.callers| && s.callers[c].Direct?
    case LogLock(c) => c < |s.callers| && s.callers[c].WantLock? && s.lock.Free?
    case SecondLoad(c) => c < |s.callers| && s.callers[c].LogLocked?
    case LockedHandOver(c) => c < |s.callers| && s.callers[c].LockedDirect?
    case Buffer(c) => c < |s.callers| && s.callers[c].Buffering?
    case LogUnlock(c) => c < |s.callers| && s.callers[c].LogLeaving?
  }

  function At(s: State, c: nat, pc: LogPc): State
    requires c < |s.callers|
  {
    s.(callers := s.callers[c := pc])
  }

  function Apply(s: State, step: Step): State
    requires Enabled(s, step)
  {
    match step
    case SetLock => s.(lock := Setter, setter := SetLocked)
    case CompareAndSwap => s.(targetSet := true, setter := Flushing(0))
    case FlushOne => s.(delivered := s.delivered + [s.pending[s.setter.next]], setter := Flushing(s.setter.next + 1))
    case Clear => s.(pending := [], setter := Cleared)
    case SetUnlock => s.(lock := Free, setter := SetDone)
    case FirstLoad(c) => At(s, c, if s.targetSet then Direct else WantLock)
    case HandOver(c) => At(s, c, LogDone).(delivered := s.delivered + [c])
    case LogLock(c) => At(s, c, LogLocked).(lock := Caller(c))
    case SecondLoad(c) => At(s, c, if s.targetSet then LockedDirect else Buffering)
    case LockedHandOver(c) => At(s, c, LogLeaving).(delivered := s.delivered + [c])
    case Buffer(c) => At(s, c, LogLeaving).(pending := s.pending + [c], buffered := s.buffered + [c])
    case LogUnlock(c) => At(s, c, LogDone).(lock := Free)
  }

  ghost predicate Next(s: State, t: State) {
    exists step :: Enabled(s, step) && t == Apply(s, step)
  }

  /** A run: any interleaving of the steps. */
  ghost predicate Run(trace: seq<State>) {
    && trace != [] && Init(trace[0])
    && forall i, j {:trigger Next(trace[i], trace[j])} :: 0 <= i < j < |trace| && j == i + 1 ==> Next(trace[i], trace[j])
  }

  // ---------------------------------------------------------------------------------------------
  // The invariant
  // ---------------------------------------------------------------------------------------------

  /** How many of the buffered messages the target already got. */
  function Flushed(s: State): nat {
    match s.setter
    case SetStart => 0
    case SetLocked => 0
    case Flushing(next) => next
    case Cleared => |s.buffered|
    case SetDone => |s.buffered|
  }

  /** The elements of a sequence that also occur in another one. */
  function Restricted(s: seq<nat>, b: seq<nat>): seq<nat> {
    if s == [] then []
    else Restricted(s[..|s| - 1], b) + (if s[|s| - 1] in b then [s[|s| - 1]] else [])
  }

  ghost predicate LockInv(s: State) {
    && (s.lock.Setter? <==> s.setter.SetLocked? || s.setter.Flushing? || s.setter.Cleared?)
    && (forall c :: 0 <= c < |s.callers| ==> (s.callers[c].HoldsLock() <==> s.lock == Caller(c)))
    && (s.lock.Caller? ==> s.lock.id < |s.callers|)
    && (s.targetSet <==> s.setter.Flushing? || s.setter.Cleared? || s.setter.SetDone?)
  }

  /** Nobody is about to buffer once the target is set, and the buffer is empty once it is flushed. */
  ghost predicate BufferInv(s: State) {
    && (forall c :: 0 <= c < |s.callers| && s.callers[c].Buffering? ==> !s.targetSet)
    && (forall c :: 0 <= c < |s.callers| && (s.callers[c].Direct? || s.callers[c].LockedDirect?) ==> s.targetSet)
    && s.pending == (if s.setter.Cleared? || s.setter.SetDone? then [] else s.buffered)
    && Flushed(s) <= |s.buffered|
  }

  /** The messages at the target and those still to be handed over. */
  function Places(s: State): multiset<nat>
    requires Flushed(s) <= |s.buffered|
  {
    multiset(s.delivered) + multiset(s.buffered[Flushed(s)..])
  }

  /** Every message is in exactly one of the two places, once, as soon as its call has acted on it. */
  ghost predicate OnceInv(s: State) {
    && Flushed(s) <= |s.buffered|
    && forall c :: 0 <= c < |s.callers| ==> Places(s)[c] == if s.callers[c].Acted() then 1 else 0
  }

  ghost predicate KnownInv(s: State) {
    && (forall c :: c in s.delivered ==> c < |s.callers| && s.callers[c].Acted())
    && (forall c :: c in s.buffered ==> c < |s.callers| && s.callers[c].Acted())
  }

  /** What was buffered arrives in the order in which it was buffered. */
  ghost predicate OrderInv(s: State) {
    && Flushed(s) <= |s.buffered|
    && Restricted(s.delivered, s.buffered) == s.buffered[..Flushed(s)]
  }

  ghost predicate Inv(s: State) {
    LockInv(s) && BufferInv(s) && OnceInv(s) && KnownInv(s) && OrderInv(s)
  }

  lemma InitInv(s: State)
    requires Init(s)
    ensures Inv(s)
  {
  }

  lemma LockStep(s: State, step: Step)
    requires Enabled(s, step) && LockInv(s)
    ensures LockInv(Apply(s, step))
  {
  }

  lemma BufferStep(s: State, step: Step)
    requires Enabled(s, step) && LockInv(s) && BufferInv(s)
    ensures BufferInv(Apply(s, step))
  {
  }

  lemma KnownStep(s: State, step: Step)
    requires Enabled(s, step) && BufferInv(s) && KnownInv(s)
    ensures KnownInv(Apply(s, step))
  {
    if step.FlushOne? {
      assert s.pending[s.setter.next] in s.buffered;
    }
  }

  /** Where the messages are after a step: handing over a buffered one moves it, acting on one adds it. */
  lemma PlacesStep(s: State, step: Step)
    requires Enabled(s, step) && LockInv(s) && BufferInv(s)
    requires Flushed(s) <= |s.buffered|
    ensures Flushed(Apply(s, step)) <= |Apply(s, step).buffered|
    ensures Places(Apply(s, step)) ==
              if step.HandOver? || step.LockedHandOver? || step.Buffer? then Places(s) + multiset{step.c} else Places(s)
  {
    hide LockInv, BufferInv, Places, Flushed;
    match step
    case FlushOne => FlushPlaces(s);
    case HandOver(c) => HandOverPlaces(s, At(s, c, LogDone), c);
    case LockedHandOver(c) => HandOverPlaces(s, At(s, c, LogLeaving), c);
    case Buffer(c) => BufferPlaces(s, c);
    case _ => SamePlaces(s, step);
  }

  lemma SamePlaces(s: State, step: Step)
    requires Enabled(s, step) && LockInv(s) && BufferInv(s)
    requires !step.HandOver? && !step.LockedHandOver? && !step.Buffer? && !step.FlushOne?
    ensures Flushed(Apply(s, step)) == Flushed(s) && Apply(s, step).buffered == s.buffered
    ensures Places(Apply(s, step)) == Places(s)
  {
  }

  lemma FlushPlaces(s: State)
    requires Enabled(s, FlushOne) && LockInv(s) && BufferInv(s)
    ensures Flushed(Apply(s, FlushOne)) <= |Apply(s, FlushOne).buffered|
    ensures Places(Apply(s, FlushOne)) == Places(s)
  {
    HandOverOne(s.delivered, s.buffered, s.setter.next);
  }

  lemma HandOverPlaces(s: State, t: State, c: nat)
    requires Flushed(s) <= |s.buffered| && t.setter == s.setter && t.buffered == s.buffered && t.delivered == s.delivered
    ensures Flushed(t.(delivered := t.delivered + [c])) == Flushed(s)
    ensures Places(t.(delivered := t.delivered + [c])) == Places(s) + multiset{c}
  {
    assert multiset(s.delivered + [c]) == multiset(s.delivered) + multiset{c};
  }

  lemma HandOverOne(d: seq<nat>, b: seq<nat>, k: nat)
    requires k < |b|
    ensures multiset(d + [b[k]]) + multiset(b[k + 1..]) == multiset(d) + multiset(b[k..])
  {
    assert b[k..] == [b[k]] + b[k + 1..];
  }

  lemma BufferPlaces(s: State, c: nat)
    requires Enabled(s, Buffer(c)) && LockInv(s) && BufferInv(s)
    ensures Flushed(Apply(s, Buffer(c))) <= |Apply(s, Buffer(c)).buffered|
    ensures Places(Apply(s, Buffer(c))) == Places(s) + multiset{c}
  {
    assert Flushed(s) == 0;
    assert s.buffered[0..] == s.buffered;
    assert (s.buffered + [c])[0..] == s.buffered + [c];
  }

  lemma OnceStep(s: State, step: Step)
    requires Enabled(s, step) && LockInv(s) && BufferInv(s) && OnceInv(s)
    ensures OnceInv(Apply(s, step))
  {
    hide Places, Flushed, BufferInv, LockInv;
    PlacesStep(s, step);
  }

  lemma {:induction false} RestrictedGrows(s: seq<nat>, b: seq<nat>, c: nat)
    requires c !in s
    ensures Restricted(s, b + [c]) == Restricted(s, b)
  {
    if s != [] {
      RestrictedGrows(s[..|s| - 1], b, c);
    }
  }

  lemma RestrictedSnoc(s: seq<nat>, b: seq<nat>, c: nat)
    ensures Restricted(s + [c], b) == if c in b then Restricted(s, b) + [c] else Restricted(s, b)
  {
    assert (s + [c])[..|s|] == s;
  }

  lemma OrderStep(s: State, step: Step)
    requires Enabled(s, step) && LockInv(s) && BufferInv(s) && KnownInv(s) && OrderInv(s)
    ensures OrderInv(Apply(s, step))
  {
    hide Restricted;
    match step
    case FlushOne =>
      var k := s.setter.next;
      RestrictedSnoc(s.delivered, s.buffered, s.buffered[k]);
      assert s.buffered[..k + 1] == s.buffered[..k] + [s.buffered[k]];
    case HandOver(c) => RestrictedSnoc(s.delivered, s.buffered, c);
    case LockedHandOver(c) => RestrictedSnoc(s.delivered, s.buffered, c);
    case Buffer(c) => RestrictedGrows(s.delivered, s.buffered, c);
    case _ =>
  }

  lemma {:induction false} RunKeepsInv(trace: seq<State>, i: nat)
    requires Run(trace) && i < |trace|
    ensures Inv(trace[i])
  {
    hide LockInv, BufferInv, OnceInv, KnownInv, OrderInv, Init, Enabled;
    if i == 0 {
      InitInv(trace[0]);
    } else {
      RunKeepsInv(trace, i - 1);
      assert Next(trace[i - 1], trace[i]);
      var s := trace[i - 1];
      var step :| Enabled(s, step) && trace[i] == Apply(s, step);
      LockStep(s, step);
      BufferStep(s, step);
      OnceStep(s, step);
      KnownStep(s, step);
      OrderStep(s, step);
    }
  }

  // ---------------------------------------------------------------------------------------------
  // What holds over every run
  // ---------------------------------------------------------------------------------------------

  /** Once `Set` and a call of `Log` have both returned, the target has got that message exactly once. */
  lemma DeliveredExactlyOnce(trace: seq<State>, i: nat, c: nat)
    requires Run(trace) && i < |trace| && c < |trace[i].callers|
    requires trace[i].setter.SetDone? && trace[i].callers[c].LogDone?
    ensures multiset(trace[i].delivered)[c] == 1
  {
    RunKeepsInv(trace, i);
    var s := trace[i];
    assert s.buffered[|s.buffered|..] == [];
    assert Places(s) == multiset(s.delivered);
  }

  /** No message is ever delivered twice, nor before its call got to act on it. */
  lemma NeverDeliveredTwice(trace: seq<State>, i: nat, c: nat)
    requires Run(trace) && i < |trace| && c < |trace[i].callers|
    ensures multiset(trace[i].delivered)[c] <= if trace[i].callers[c].Acted() then 1 else 0
  {
    RunKeepsInv(trace, i);
  }

  /** The buffered messages arrive in the order in which they were buffered, all of them once `Set` returns. */
  lemma BufferedInOrder(trace: seq<State>, i: nat)
    requires Run(trace) && i < |trace|
    ensures Restricted(trace[i].delivered, trace[i].buffered) <= trace[i].buffered
    ensures trace[i].setter.SetDone? ==> Restricted(trace[i].delivered, trace[i].buffered) == trace[i].buffered
  {
    RunKeepsInv(trace, i);
  }

  /** Nothing is buffered any more from the moment `Set` has put the target in place. */
  lemma {:induction false} NothingBufferedAfterSet(trace: seq<State>, i: nat, j: nat)
    requires Run(trace) && i <= j < |trace| && trace[i].targetSet
    ensures trace[j].targetSet && trace[j].buffered == trace[i].buffered
    decreases j
  {
    if i < j {
      hide Inv, Next;
      NothingBufferedAfterSet(trace, i, j - 1);
      RunKeepsInv(trace, j - 1);
      assert Next(trace[j - 1], trace[j]);
      BuffersNothing(trace[j - 1], trace[j]);
    }
  }

  lemma BuffersNothing(s: State, t: State)
    requires Inv(s) && Next(s, t) && s.targetSet
    ensures t.targetSet && t.buffered == s.buffered
  {
    hide OnceInv, KnownInv, OrderInv, Apply, Enabled;
    var step :| Enabled(s, step) && t == Apply(s, step);
    StepBuffersNothing(s, step);
  }

  lemma StepBuffersNothing(s: State, step: Step)
    requires LockInv(s) && BufferInv(s) && Enabled(s, step) && s.targetSet
    ensures Apply(s, step).targetSet && Apply(s, step).buffered == s.buffered
  {
  }

  /** Some call can always go on until all of them have returned: nobody waits for the lock forever. */
  lemma NoDeadlock(trace: seq<State>, i: nat)
    requires Run(trace) && i < |trace|
    requires !trace[i].setter.SetDone? || exists c :: 0 <= c < |trace[i].callers| && !trace[i].callers[c].LogDone?
    ensures exists step :: Enabled(trace[i], step)
  {
    RunKeepsInv(trace, i);
    var s := trace[i];
    if s.lock.Setter? {
      var step := if s.setter.SetLocked? then CompareAndSwap else if s.setter.Cleared? then SetUnlock
                  else if s.setter.next < |s.pending| then FlushOne else Clear;
      assert Enabled(s, step);
    } else if s.lock.Caller? {
      var c := s.lock.id;
      assert s.callers[c].HoldsLock();
      var step := match s.callers[c]
        case LogLocked => SecondLoad(c)
        case LockedDirect => LockedHandOver(c)
        case Buffering => Buffer(c)
        case _ => LogUnlock(c);
      assert Enabled(s, step);
    } else if !s.setter.SetDone? {
      assert Enabled(s, SetLock);
    } else {
      var c :| 0 <= c < |s.callers| && !s.callers[c].LogDone?;
      assert !s.callers[c].HoldsLock();
      var step := match s.callers[c]
        case LogStart => FirstLoad(c)
        case Direct => HandOver(c)
        case _ => LogLock(c);
      assert Enabled(s, step);
    }
  }
}

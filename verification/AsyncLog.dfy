/**
  `CLoggerAsync::Log` as a client of the asynchronous writer: one log record is several writes under
  one lock.
 */
module AsyncLog {
  import opened Machine
  import opened AioProtocol
  import opened AioRing
  import opened AioShutdown
  import opened NetAddrText

  datatype Color = Color(r: byte, g: byte, b: byte)

  datatype LogMessage = LogMessage(line: seq<byte>, color: Option<Color>)

  /** The bytes of an ASCII text. */
  function Ascii(t: string): seq<byte> {
    seq(|t|, i requires 0 <= i < |t| => if t[i] as int < 128 then t[i] as int else 0)
  }

  /** The escape sequence that selects a 24-bit colour. */
  function ColorSequence(c: Color): seq<byte> {
    Ascii("\U{1B}[38;2;" + NumberText(c.r, 10) + ";" + NumberText(c.g, 10) + ";" + NumberText(c.b, 10) + "m")
  }

  const RESET_COLOR := "\U{1B}[0m"

  /** What is written for one message, write by write. */
  function RecordParts(message: LogMessage, ansiTruecolor: bool): seq<seq<byte>> {
    if ansiTruecolor && message.color.Some? then
      [ColorSequence(message.color.value), message.line, Ascii(RESET_COLOR), Ascii("\n")]
    else [message.line, Ascii("\n")]
  }

  /** One record as it must appear in the file. */
  function Record(message: LogMessage, ansiTruecolor: bool): seq<byte> {
    if ansiTruecolor && message.color.Some? then
      ColorSequence(message.color.value) + message.line + Ascii(RESET_COLOR) + Ascii("\n")
    else message.line + Ascii("\n")
  }

  lemma FlattenParts(message: LogMessage, ansiTruecolor: bool)
    ensures Flatten(RecordParts(message, ansiTruecolor)) == Record(message, ansiTruecolor)
  {
    hide ColorSequence, Ascii, Flatten;
    var parts := RecordParts(message, ansiTruecolor);
    FlattenSnoc([], message.line);
    assert [] + [message.line] == [message.line];
    if ansiTruecolor && message.color.Some? {
      var color := ColorSequence(message.color.value);
      FlattenSnoc([], color);
      assert [] + [color] == [color];
      FlattenSnoc([color], message.line);
      FlattenSnoc([color, message.line], Ascii(RESET_COLOR));
      FlattenSnoc([color, message.line, Ascii(RESET_COLOR)], Ascii("\n"));
      assert parts == [color, message.line, Ascii(RESET_COLOR)] + [Ascii("\n")];
      assert [color, message.line, Ascii(RESET_COLOR)] == [color, message.line] + [Ascii(RESET_COLOR)];
      assert [color, message.line] == [color] + [message.line];
    } else {
      FlattenSnoc([message.line], Ascii("\n"));
      assert parts == [message.line] + [Ascii("\n")];
    }
  }

  lemma FlattenSnoc(parts: seq<seq<byte>>, last: seq<byte>)
    ensures Flatten(parts + [last]) == Flatten(parts) + last
    ensures Flatten([]) == []
  {
    assert (parts + [last])[..|parts|] == parts;
  }

  /** A record holds its line whole, ends with a line feed, and adds at most 24 bytes to the line. */
  lemma RecordHoldsLine(message: LogMessage, ansiTruecolor: bool) returns (at: nat)
    ensures at + |message.line| < |Record(message, ansiTruecolor)| <= |message.line| + 24
    ensures Record(message, ansiTruecolor)[at..at + |message.line|] == message.line
    ensures Record(message, ansiTruecolor)[|Record(message, ansiTruecolor)| - 1] == '\n' as int
  {
    hide NumberText;
    if ansiTruecolor && message.color.Some? {
      var c := message.color.value;
      NumberLengths(c.r);
      NumberLengths(c.g);
      NumberLengths(c.b);
      at := |ColorSequence(c)|;
    } else {
      at := 0;
    }
  }

  /**
    The writes of `CLoggerAsync::Log` between `aio_lock` and `aio_unlock`: exactly one whole record is
    queued, part by part.
   */
  method Log(aio: AsyncIo, message: LogMessage, filtered: bool, ansiTruecolor: bool) returns (ghost writes: seq<seq<byte>>)
    requires aio.Valid()
    requires |aio.Contents()| + |Record(message, ansiTruecolor)| < MAX_RING_SIZE
    modifies aio, aio.buffer
    ensures aio.Valid()
    ensures writes == if filtered then [] else RecordParts(message, ansiTruecolor)
    ensures aio.Contents() == old(aio.Contents()) + if filtered then [] else Record(message, ansiTruecolor)
  {
    hide ColorSequence, Ascii, Flatten, Record, AsyncIo.Valid, AsyncIo.Contents;
    ghost var queued, parts := aio.Contents(), RecordParts(message, ansiTruecolor);
    writes := [];
    FlattenSnoc([], []);
    assert queued + [] == queued;
    if filtered {
      return;
    }
    FlattenParts(message, ansiTruecolor);
    if ansiTruecolor && message.color.Some? {
      writes := WritePart(aio, ColorSequence(message.color.value), queued, writes, parts);
    }
    writes := WritePart(aio, message.line, queued, writes, parts);
    if ansiTruecolor && message.color.Some? {
      writes := WritePart(aio, Ascii(RESET_COLOR), queued, writes, parts);
    }
    writes := WritePart(aio, Ascii("\n"), queued, writes, parts);
    assert parts[..|parts|] == parts;
  }

  /** The next write of a record that fits. */
  method WritePart(aio: AsyncIo, data: seq<byte>, ghost queued: seq<byte>, ghost writes: seq<seq<byte>>, ghost parts: seq<seq<byte>>)
    returns (ghost more: seq<seq<byte>>)
    requires aio.Valid() && aio.Contents() == queued + Flatten(writes)
    requires |writes| < |parts| && writes == parts[..|writes|] && data == parts[|writes|]
    requires |queued| + |Flatten(parts)| < MAX_RING_SIZE
    modifies aio, aio.buffer
    ensures aio.Valid() && (aio.buffer == old(aio.buffer) || fresh(aio.buffer))
    ensures more == writes + [data] == parts[..|writes| + 1] && aio.Contents() == queued + Flatten(more)
  {
    hide Flatten, AsyncIo.Valid, AsyncIo.Contents, AsyncIo.Snapshot, Wrote;
    FlattenSnoc(writes, data);
    assert parts[..|writes| + 1] == writes + [data];
    FlattenPrefix(parts, |writes| + 1);
    aio.WriteUnlocked(data);
    more := writes + [data];
    assert queued + Flatten(writes) + data == queued + (Flatten(writes) + data);
  }

  lemma {:induction false} FlattenPrefix(parts: seq<seq<byte>>, k: nat)
    requires k <= |parts|
    ensures |Flatten(parts[..k])| <= |Flatten(parts)|
    decreases |parts| - k
  {
    hide Flatten;
    if k == |parts| {
      assert parts[..k] == parts;
    } else {
      FlattenPrefix(parts, k + 1);
      FlattenSnoc(parts[..k], parts[k]);
      assert parts[..k + 1] == parts[..k] + [parts[k]];
    }
  }

  // ---------------------------------------------------------------------------------------------
  // One record is one session
  // ---------------------------------------------------------------------------------------------

  /** What client `c` writes in these steps, write by write. */
  function WritesOf(c: nat, steps: seq<Step>): seq<seq<byte>> {
    if steps == [] then []
    else
      var last := steps[|steps| - 1];
      WritesOf(c, steps[..|steps| - 1]) + if last.Write? && last.c == c then [last.data] else []
  }

  /** Client `c` takes the lock at step `i` and does not give it back before step `m`. */
  ghost predicate HoldsFrom(steps: seq<Step>, c: nat, i: nat, m: nat) {
    i < m <= |steps| && steps[i] == Lock(c) && forall k :: i < k < m ==> steps[k] != Unlock(c)
  }

  lemma FollowedStep(trace: seq<State>, steps: seq<Step>, k: nat)
    requires Follows(trace, steps) && k < |steps|
    ensures Enabled(trace[k], steps[k]) && trace[k + 1] == Apply(trace[k], steps[k])
  {
    hide Enabled, Apply;
    assert Took(trace[k], steps[k], trace[k + 1]);
  }

  lemma FollowsIsRun(trace: seq<State>, steps: seq<Step>)
    requires Follows(trace, steps) && Init(trace[0])
    ensures Run(trace)
  {
    hide Enabled, Apply, Init;
    forall i, j | 0 <= i < j < |trace| && j == i + 1
      ensures Next(trace[i], trace[j])
    {
      FollowedStep(trace, steps, i);
    }
  }

  /** Only the holder of the lock adds to the sessions. */
  lemma SessionStep(s: State, step: Step, c: nat)
    requires Enabled(s, step) && LockInv(s) && c < |s.clients| && s.clients[c].Session? && s.sessions != [] && step != Unlock(c)
    ensures var t := Apply(s, step);
            && c < |t.clients| && t.clients[c].Session?
            && t.sessions == if step.Write? && step.c == c then ExtendLast(s.sessions, step.data) else s.sessions
  {
    hide Flatten, Chunk, AfterChunk, ExtendLast;
  }

  lemma {:induction false} SessionGrows(trace: seq<State>, steps: seq<Step>, c: nat, i: nat, m: nat)
    requires Follows(trace, steps) && Init(trace[0]) && HoldsFrom(steps, c, i, m)
    ensures c < |trace[m].clients| && trace[m].clients[c].Session?
    ensures trace[m].sessions == trace[i].sessions + [Flatten(WritesOf(c, steps[i + 1..m]))]
    decreases m
  {
    hide Flatten, Enabled, Apply, LockInv, WritesOf;
    FollowsIsRun(trace, steps);
    if m == i + 1 {
      FollowedStep(trace, steps, i);
      Locked(trace[i], c);
      NoWritesYet(c);
      assert steps[i + 1..m] == [];
    } else {
      SessionGrows(trace, steps, c, i, m - 1);
      RunKeepsInv(trace, m - 1);
      FollowedStep(trace, steps, m - 1);
      SessionStep(trace[m - 1], steps[m - 1], c);
      WritesOfMore(c, steps, i + 1, m);
      var before, session := trace[i].sessions, Flatten(WritesOf(c, steps[i + 1..m - 1]));
      if steps[m - 1].Write? && steps[m - 1].c == c {
        ExtendsSession(before, session, steps[m - 1].data);
        FlattenSnoc(WritesOf(c, steps[i + 1..m - 1]), steps[m - 1].data);
      } else {
        assert WritesOf(c, steps[i + 1..m - 1]) + [] == WritesOf(c, steps[i + 1..m - 1]);
      }
    }
  }

  lemma Locked(s: State, c: nat)
    requires Enabled(s, Lock(c))
    ensures c < |Apply(s, Lock(c)).clients| && Apply(s, Lock(c)).clients[c].Session?
    ensures Apply(s, Lock(c)).sessions == s.sessions + [[]]
  {
  }

  lemma NoWritesYet(c: nat)
    ensures WritesOf(c, []) == [] && Flatten([]) == []
  {
  }

  lemma WritesOfMore(c: nat, steps: seq<Step>, i: nat, m: nat)
    requires i < m <= |steps|
    ensures WritesOf(c, steps[i..m]) ==
              WritesOf(c, steps[i..m - 1]) + if steps[m - 1].Write? && steps[m - 1].c == c then [steps[m - 1].data] else []
  {
    assert steps[i..m][..m - 1 - i] == steps[i..m - 1];
  }

  lemma ExtendsSession(before: seq<seq<byte>>, session: seq<byte>, data: seq<byte>)
    ensures ExtendLast(before + [session], data) == before + [session + data]
  {
  }

  /** Session `k` is over: it is not the last one, or nobody is writing. */
  ghost predicate Over(s: State, k: nat) {
    k < |s.sessions| && (k == |s.sessions| - 1 ==> forall d :: 0 <= d < |s.clients| ==> !s.clients[d].Session?)
  }

  lemma OverStep(s: State, step: Step, k: nat)
    requires Enabled(s, step) && Over(s, k)
    ensures Over(Apply(s, step), k) && Apply(s, step).sessions[k] == s.sessions[k]
  {
    hide Flatten, Chunk, AfterChunk;
  }

  lemma SessionEnds(s: State, c: nat)
    requires Enabled(s, Unlock(c)) && LockInv(s) && s.clients[c].Session? && s.sessions != []
    ensures Over(Apply(s, Unlock(c)), |s.sessions| - 1) && Apply(s, Unlock(c)).sessions == s.sessions
  {
    assert forall d :: 0 <= d < |s.clients| && d != c ==> !s.clients[d].HoldsLock();
  }

  lemma {:induction false} SessionStays(trace: seq<State>, steps: seq<Step>, j: nat, n: nat, k: nat)
    requires Follows(trace, steps) && j <= n < |trace| && Over(trace[j], k)
    ensures Over(trace[n], k) && trace[n].sessions[k] == trace[j].sessions[k]
    decreases n
  {
    hide Enabled, Apply;
    if j < n {
      SessionStays(trace, steps, j, n - 1, k);
      FollowedStep(trace, steps, n - 1);
      OverStep(trace[n - 1], steps[n - 1], k);
    }
  }

  /**
    A record in the file. In any interleaving, if client `c` takes the lock at step `i`, writes the parts
    of a record, whatever the other threads do in between, and gives the lock back at step `j`, then from
    there on the record has a place of its own, and as soon as the file reaches so far it is there whole.
   */
  lemma RecordStaysWhole(trace: seq<State>, steps: seq<Step>, c: nat, i: nat, j: nat, n: nat,
                         message: LogMessage, ansiTruecolor: bool)
    requires Follows(trace, steps) && Init(trace[0])
    requires HoldsFrom(steps, c, i, j) && j < n < |trace| && steps[j] == Unlock(c)
    requires WritesOf(c, steps[i + 1..j]) == RecordParts(message, ansiTruecolor)
    ensures var k := |trace[i].sessions|;
            && k < |trace[n].sessions| && trace[n].sessions[k] == Record(message, ansiTruecolor)
            && var start := |Flatten(trace[n].sessions[..k])|;
               var end := start + |Record(message, ansiTruecolor)|;
               end <= |trace[n].file| ==> trace[n].file[start..end] == Record(message, ansiTruecolor)
  {
    hide Flatten, Enabled, Apply, LockInv, WritesOf, Record, RecordParts, Over;
    var k := |trace[i].sessions|;
    FollowsIsRun(trace, steps);
    SessionGrows(trace, steps, c, i, j);
    FlattenParts(message, ansiTruecolor);
    RunKeepsInv(trace, j);
    FollowedStep(trace, steps, j);
    SessionEnds(trace[j], c);
    SessionStays(trace, steps, j + 1, n, k);
    OverMeans(trace[n], k);
    SessionsContiguous(trace, n, k);
  }

  lemma OverMeans(s: State, k: nat)
    requires Over(s, k)
    ensures k < |s.sessions|
  {
  }
}

/**
  The growing ring buffer of the asynchronous file writer: the critical sections of `aio_thread` and
  `aio_write_unlocked`, each proved to act on the ring as on a plain queue of bytes.
 */
module AioRing {
  import opened Machine

  const ASYNC_BUFSIZE: uint32 := 8 * 1024
  const ASYNC_LOCAL_BUFSIZE: uint32 := 64 * 1024
  const MAX_RING_SIZE: int := 0x8000_0000

  // ---------------------------------------------------------------------------------------------
  // The queue the ring stands for
  // ---------------------------------------------------------------------------------------------

  /** What one pass of the writer thread takes out of the queue ... */
  function Chunk(queue: seq<byte>): seq<byte> {
    if |queue| <= ASYNC_LOCAL_BUFSIZE as int then queue else queue[..ASYNC_LOCAL_BUFSIZE as int]
  }

  /** ... and what it leaves behind. */
  function AfterChunk(queue: seq<byte>): seq<byte> {
    queue[|Chunk(queue)|..]
  }

  // ---------------------------------------------------------------------------------------------
  // Buffer sizes
  // ---------------------------------------------------------------------------------------------

  /** The sizes a ring can take: the initial size, doubled `k` times. */
  function RingSize(k: nat): nat {
    if k == 0 then ASYNC_BUFSIZE as nat else 2 * RingSize(k - 1)
  }

  ghost predicate IsRingSize(n: int) {
    exists k: nat :: k <= 18 && n == RingSize(k)
  }

  lemma {:induction false} RingSizeMonotone(i: nat, j: nat)
    requires i <= j
    ensures RingSize(i) <= RingSize(j)
    decreases j
  {
    if i < j {
      RingSizeMonotone(i, j - 1);
    }
  }

  lemma LargestRingSize()
    ensures RingSize(18) == MAX_RING_SIZE
  {
    assert RingSize(4) == 0x2_0000;
    assert RingSize(8) == 0x20_0000;
    assert RingSize(12) == 0x200_0000;
    assert RingSize(16) == 0x2000_0000;
  }

  /** Doubling a ring size below the need stays a ring size, as long as the need is at most 2^31. */
  lemma DoublingStaysRingSize(n: int)
    requires IsRingSize(n) && n < MAX_RING_SIZE
    ensures IsRingSize(2 * n) && 2 * n <= MAX_RING_SIZE
  {
    var k: nat :| k <= 18 && n == RingSize(k);
    LargestRingSize();
    assert RingSize(k + 1) == 2 * n;
    RingSizeMonotone(k + 1, 18);
  }

  lemma RingSizeBounds(n: int)
    requires IsRingSize(n)
    ensures ASYNC_BUFSIZE as int <= n <= MAX_RING_SIZE
  {
    var k: nat :| k <= 18 && n == RingSize(k);
    LargestRingSize();
    RingSizeMonotone(0, k);
    RingSizeMonotone(k, 18);
  }

  /** `cur_size` after `steps` rounds of `cur_size *= 2` on a 32-bit unsigned integer. */
  function WrappingDoubled(size: nat, steps: nat): nat {
    if steps == 0 then size else 2 * WrappingDoubled(size, steps - 1) % 0x1_0000_0000
  }

  lemma {:induction false} WrappingDoubledIsRingSizeOrZero(size: nat, steps: nat)
    requires IsRingSize(size)
    ensures IsRingSize(WrappingDoubled(size, steps)) || WrappingDoubled(size, steps) == 0
  {
    if steps != 0 {
      WrappingDoubledIsRingSizeOrZero(size, steps - 1);
      var before := WrappingDoubled(size, steps - 1);
      if before != 0 {
        RingSizeBounds(before);
        DoublingWraps(before);
        if before < MAX_RING_SIZE {
          DoublingStaysRingSize(before);
        }
      }
    }
  }

  lemma DoublingWraps(x: nat)
    requires x <= MAX_RING_SIZE
    ensures 2 * x % 0x1_0000_0000 == if x < MAX_RING_SIZE then 2 * x else 0
  {
  }

  lemma {:induction false} WrappingDoubledShift(size: nat, steps: nat)
    ensures WrappingDoubled(2 * size % 0x1_0000_0000, steps) == WrappingDoubled(size, steps + 1)
  {
    if steps != 0 {
      WrappingDoubledShift(size, steps - 1);
    }
  }

  lemma {:induction false} DoublingReaches(size: nat, need: int) returns (steps: nat)
    requires IsRingSize(size) && need <= MAX_RING_SIZE
    ensures WrappingDoubled(size, steps) >= need
    decreases MAX_RING_SIZE - size
  {
    if size >= need {
      steps := 0;
    } else {
      DoublingStaysRingSize(size);
      RingSizeBounds(size);
      assert 2 * size % 0x1_0000_0000 == 2 * size;
      var rest := DoublingReaches(2 * size, need);
      WrappingDoubledShift(size, rest);
      steps := rest + 1;
    }
  }

  /**
    The loop of `next_buffer_size` comes to an end exactly when the needed size is at most 2^31:
    past that the 32-bit doubling wraps to zero and stays there.
   */
  lemma NextBufferSizeTerminatesIff(size: nat, need: nat)
    requires IsRingSize(size)
    ensures (exists steps: nat :: WrappingDoubled(size, steps) >= need) <==> need <= MAX_RING_SIZE
  {
    if need <= MAX_RING_SIZE {
      var steps := DoublingReaches(size, need);
    } else {
      forall steps: nat
        ensures WrappingDoubled(size, steps) < need
      {
        WrappingDoubledIsRingSizeOrZero(size, steps);
        if WrappingDoubled(size, steps) != 0 {
          RingSizeBounds(WrappingDoubled(size, steps));
        }
      }
    }
  }

  /** `buffer_len(aio) + size + 1` on 32-bit unsigned integers. */
  function Needed(queued: nat, n: nat): nat {
    (queued + n + 1) % 0x1_0000_0000
  }

  lemma NeededExactly(queued: nat, n: nat)
    ensures Needed(queued, n) < 0x1_0000_0000
    ensures queued + n + 1 < 0x1_0000_0000 ==> Needed(queued, n) == queued + n + 1
  {
  }

  /** The loop has ended after this many rounds. */
  ghost predicate EndsAfter(size: nat, need: nat, steps: nat) {
    WrappingDoubled(size, steps) >= need && forall k: nat :: k < steps ==> WrappingDoubled(size, k) < need
  }

  lemma {:induction false} EndsOnce(size: nat, need: nat, steps: nat) returns (first: nat)
    requires WrappingDoubled(size, steps) >= need
    ensures first <= steps && EndsAfter(size, need, first)
  {
    hide WrappingDoubled;
    if k: nat :| k < steps && WrappingDoubled(size, k) >= need {
      first := EndsOnce(size, need, k);
    } else {
      first := steps;
    }
  }

  /**
    What `aio_write_unlocked` asks of its callers is exact. When `n` more bytes need a larger buffer, the
    size computed for it, with its 32-bit addition and doubling, is found and has room for everything
    exactly if the total is below 2^31. Otherwise the loop does not end, or the addition wraps and the
    buffer is too small.
   */
  lemma RegrowthFitsIff(size: nat, queued: nat, n: nat)
    requires IsRingSize(size) && queued < size && size - queued <= n < 0x1_0000_0000
    ensures (exists steps: nat :: EndsAfter(size, Needed(queued, n), steps) && queued + n < WrappingDoubled(size, steps))
              <==> queued + n < MAX_RING_SIZE
  {
    hide WrappingDoubled, Needed;
    var need := Needed(queued, n);
    NeededExactly(queued, n);
    if queued + n < MAX_RING_SIZE {
      var steps := DoublingReaches(size, need);
      var first := EndsOnce(size, need, steps);
      assert EndsAfter(size, need, first) && queued + n < WrappingDoubled(size, first);
    } else {
      NextBufferSizeTerminatesIff(size, need);
      forall steps: nat
        ensures WrappingDoubled(size, steps) <= MAX_RING_SIZE
      {
        WrappingDoubledIsRingSizeOrZero(size, steps);
        if WrappingDoubled(size, steps) != 0 {
          RingSizeBounds(WrappingDoubled(size, steps));
        }
      }
    }
  }

  method NextBufferSize(curSize: uint32, needSize: uint32) returns (nextSize: uint32)
    requires IsRingSize(curSize as int)
    requires needSize as int <= MAX_RING_SIZE
    ensures IsRingSize(nextSize as int)
    ensures needSize <= nextSize
    ensures nextSize == curSize || nextSize as int < 2 * needSize as int
  {
    nextSize := curSize;
    while nextSize < needSize
      invariant IsRingSize(nextSize as int)
      invariant nextSize == curSize || nextSize as int < 2 * needSize as int
      decreases MAX_RING_SIZE - nextSize as int
    {
      DoublingStaysRingSize(nextSize as int);
      RingSizeBounds(nextSize as int);
      nextSize := nextSize * 2;
    }
  }

  // ---------------------------------------------------------------------------------------------
  // The ring
  // ---------------------------------------------------------------------------------------------

  /** The bytes queued in a circular buffer between two positions, oldest first. */
  ghost function Queued(buf: seq<byte>, read: nat, write: nat): seq<byte>
    requires read < |buf| && write < |buf|
  {
    if read <= write then buf[read..write] else buf[read..] + buf[..write]
  }

  /** A position past the end of the buffer by less than its size, brought back into it. */
  ghost function Wrapped(x: nat, size: nat): nat
    requires x < 2 * size
  {
    if x < size then x else x - size
  }

  lemma WrappedIsModulo(x: nat, size: nat)
    requires x < 2 * size
    ensures x % size == Wrapped(x, size)
  {
    if x >= size {
      assert x == size * 1 + (x - size);
    }
  }

  lemma DropFromConcat(a: seq<byte>, b: seq<byte>, n: nat)
    requires n <= |a| + |b|
    ensures (a + b)[n..] == if n < |a| then a[n..] + b else b[n - |a|..]
  {
  }

  lemma AdvanceRead(buf: seq<byte>, read: nat, write: nat, n: nat)
    requires read < |buf| && write < |buf|
    requires n <= |Queued(buf, read, write)|
    ensures Queued(buf, Wrapped(read + n, |buf|), write) == Queued(buf, read, write)[n..]
  {
    if read > write {
      var a, b := buf[read..], buf[..write];
      DropFromConcat(a, b, n);
      if read + n < |buf| {
        assert a[n..] == buf[read + n..];
      } else {
        assert b[n - |a|..] == buf[read + n - |buf|..write];
      }
    }
  }

  lemma StoredUpTo(buf: seq<byte>, at: nat, data: seq<byte>, lo: nat)
    requires lo <= at && at + |data| <= |buf|
    ensures Stored(buf, at, data)[lo..at + |data|] == buf[lo..at] + data
  {
  }

  lemma StoredBehind(buf: seq<byte>, at: nat, data: seq<byte>, hi: nat)
    requires at + |data| <= hi <= |buf|
    ensures Stored(buf, at, data)[hi..] == buf[hi..]
  {
  }

  /** Storing without wrapping around, in the free stretch after the write position. */
  lemma StoreContiguous(buf: seq<byte>, read: nat, write: nat, data: seq<byte>)
    requires read < |buf| && write < |buf|
    requires write + |data| <= |buf|
    requires |Queued(buf, read, write)| + |data| < |buf|
    ensures Queued(Stored(buf, write, data), read, Wrapped(write + |data|, |buf|)) == Queued(buf, read, write) + data
  {
    hide Stored;
    var after := Stored(buf, write, data);
    if read > write {
      StoredBehind(buf, write, data, read);
      StoredUpTo(buf, write, data, 0);
      assert after[0..write + |data|] == after[..write + |data|] && buf[0..write] == buf[..write];
      assert (buf[read..] + buf[..write]) + data == buf[read..] + (buf[..write] + data);
    } else {
      StoredUpTo(buf, write, data, read);
      if write + |data| == |buf| {
        assert after[read..] + after[..0] == after[read..write + |data|];
      }
    }
  }

  /** Storing a first part up to the end of the buffer and the rest at its beginning. */
  lemma StoreWrapped(buf: seq<byte>, read: nat, write: nat, first: seq<byte>, rest: seq<byte>)
    requires read < |buf| && write < |buf|
    requires write + |first| == |buf| && rest != []
    requires |Queued(buf, read, write)| + |first| + |rest| < |buf|
    ensures Queued(Stored(Stored(buf, write, first), 0, rest), read, |rest|) == Queued(buf, read, write) + (first + rest)
  {
    var middle := Stored(buf, write, first);
    var after := Stored(middle, 0, rest);
    assert after[..|rest|] == rest;
    assert after[read..] == middle[read..];
    assert middle[read..] == buf[read..write] + first;
    assert (buf[read..write] + first) + rest == buf[read..write] + (first + rest);
  }

  /** The fields of a ring. */
  datatype Ring = Ring(buf: seq<byte>, read: nat, write: nat)
  {
    ghost predicate Valid() {
      IsRingSize(|buf|) && |buf| <= MAX_RING_SIZE && read < |buf| && write < |buf|
    }

    /**
      The queued bytes, oldest first. The ring is never completely full, so equal positions always
      mean an empty ring.
     */
    ghost function Queue(): (queue: seq<byte>)
      requires Valid()
      ensures |queue| < |buf|
      ensures read == write <==> queue == []
    {
      Queued(buf, read, write)
    }
  }

  /** The ring after a chunk was taken out of it. */
  ghost function AfterTaking(r: Ring): Ring
    requires r.Valid()
  {
    r.(read := (r.read + |Chunk(r.Queue())|) % |r.buf|)
  }

  lemma TakingTakesChunk(r: Ring)
    requires r.Valid()
    ensures AfterTaking(r).Valid() && AfterTaking(r).Queue() == AfterChunk(r.Queue())
  {
    var n := |Chunk(r.Queue())|;
    AdvanceRead(r.buf, r.read, r.write, n);
    WrappedIsModulo(r.read + n, |r.buf|);
  }

  /** The ring after data was written into it, around its end if need be. */
  ghost function InPlace(r: Ring, data: seq<byte>): Ring
    requires r.Valid() && |r.Queue()| + |data| < |r.buf|
  {
    var room := |r.buf| - r.write;
    if |data| > room then Ring(Stored(Stored(r.buf, r.write, data[..room]), 0, data[room..]), r.read, (|data| - room) % |r.buf|)
    else Ring(Stored(r.buf, r.write, data), r.read, (r.write + |data|) % |r.buf|)
  }

  /** A ring with everything moved to the beginning of a larger buffer, whose rest is arbitrary. */
  ghost predicate Regrown(r: Ring, data: seq<byte>, t: Ring)
    requires r.Valid()
  {
    && t.Valid() && t.read == 0 && t.write == |r.Queue()| + |data|
    && t.buf[..t.write] == r.Queue() + data
    && |t.buf| < 2 * (t.write + 1)
  }

  /** What `aio_write_unlocked` does to a ring. */
  ghost predicate Wrote(r: Ring, data: seq<byte>, t: Ring)
    requires r.Valid()
  {
    if |data| < |r.buf| - |r.Queue()| then t == InPlace(r, data) else Regrown(r, data, t)
  }

  lemma InPlaceAppends(r: Ring, data: seq<byte>)
    requires r.Valid() && |r.Queue()| + |data| < |r.buf|
    ensures InPlace(r, data).Valid() && InPlace(r, data).Queue() == r.Queue() + data
  {
    hide Stored, Queued;
    var room := |r.buf| - r.write;
    if |data| > room {
      StoreWrapped(r.buf, r.read, r.write, data[..room], data[room..]);
      WrappedIsModulo(|data| - room, |r.buf|);
      assert data[..room] + data[room..] == data;
    } else {
      StoreContiguous(r.buf, r.read, r.write, data);
      WrappedIsModulo(r.write + |data|, |r.buf|);
    }
  }

  /** Whichever branch is taken, the data is appended to the queue. */
  lemma WroteAppends(r: Ring, data: seq<byte>, t: Ring)
    requires r.Valid() && Wrote(r, data, t)
    ensures t.Valid() && t.Queue() == r.Queue() + data
  {
    if |data| < |r.buf| - |r.Queue()| {
      InPlaceAppends(r, data);
    }
  }

  /** `mem_copy` to the end of what is already in `dst`, followed by `len += |src|`. */
  method AppendTo(dst: array<byte>, len: uint32, src: seq<byte>) returns (newLen: uint32)
    requires len as int + |src| <= dst.Length < 0x1_0000_0000
    modifies dst
    ensures newLen as int == len as int + |src|
    ensures dst[..newLen as int] == old(dst[..len as int]) + src
  {
    MemCopy(dst, len as int, src);
    newLen := len + |src| as uint32;
  }

  /** Copies as much of `src` to the end of the thread's buffer as fits; returns how much that was. */
  method AppendClamped(dst: array<byte>, len: uint32, src: seq<byte>) returns (n: uint32)
    requires len <= ASYNC_LOCAL_BUFSIZE && dst.Length == ASYNC_LOCAL_BUFSIZE as int && |src| < 0x1_0000_0000
    modifies dst
    ensures n as int <= |src| && len as int + n as int <= ASYNC_LOCAL_BUFSIZE as int
    ensures n as int == |src| || len as int + n as int == ASYNC_LOCAL_BUFSIZE as int
    ensures dst[..len as int + n as int] == old(dst[..len as int]) + src[..n as int]
  {
    n := |src| as uint32;
    if n > ASYNC_LOCAL_BUFSIZE - len {
      n := ASYNC_LOCAL_BUFSIZE - len;
    }
    var newLen := AppendTo(dst, len, src[..n as int]);
  }

  lemma ChunkOfParts(part1: seq<byte>, part2: seq<byte>, n1: nat, n2: nat)
    requires n1 <= |part1| && n2 <= |part2|
    requires n1 == |part1| || n1 == ASYNC_LOCAL_BUFSIZE as int
    requires n1 + n2 <= ASYNC_LOCAL_BUFSIZE as int
    requires n2 == |part2| || n1 + n2 == ASYNC_LOCAL_BUFSIZE as int
    ensures part1[..n1] + part2[..n2] == Chunk(part1 + part2)
  {
  }

  /** The one or two stretches of the buffer that hold the queued bytes, in order. */
  datatype Buffers = Buffers(buf1: Option<nat>, len1: uint32, buf2: Option<nat>, len2: uint32)

  /** Fills the thread's local buffer from the stretches of the ring. */
  method CopyToLocal(part1: seq<byte>, part2: seq<byte>) returns (local: seq<byte>, n1: uint32, n2: uint32)
    requires |part1| + |part2| <= MAX_RING_SIZE
    ensures local == Chunk(part1 + part2)
    ensures n1 as int + n2 as int == |local|
  {
    var localBuffer := new byte[ASYNC_LOCAL_BUFSIZE as int];
    n1 := AppendClamped(localBuffer, 0, part1);
    n2 := AppendClamped(localBuffer, n1, part2);
    local := localBuffer[..(n1 + n2) as int];
    ChunkOfParts(part1, part2, n1 as int, n2 as int);
  }

  /** The bytes a pointer and a length of `Buffers` delimit; none for a null pointer. */
  function Part(buf: seq<byte>, at: Option<nat>, len: uint32): (part: seq<byte>)
    requires at.Some? ==> at.value + len as int <= |buf|
  {
    if at.Some? then buf[at.value..at.value + len as int] else []
  }

  class AsyncIo {
    var buffer: array<byte>
    var bufferSize: uint32
    var readPos: uint32
    var writePos: uint32

    ghost predicate Valid()
      reads this`buffer, this`bufferSize, this`readPos, this`writePos
    {
      && buffer.Length == bufferSize as int
      && IsRingSize(bufferSize as int)
      && bufferSize as int <= MAX_RING_SIZE
      && readPos < bufferSize
      && writePos < bufferSize
    }

    ghost function Snapshot(): (r: Ring)
      reads this`buffer, this`readPos, this`writePos, buffer
      ensures |r.buf| == buffer.Length
    {
      Ring(buffer[..], readPos as int, writePos as int)
    }

    /** The bytes queued. */
    ghost function Contents(): seq<byte>
      requires Valid()
      reads this`buffer, this`bufferSize, this`readPos, this`writePos, buffer
    {
      Snapshot().Queue()
    }

    constructor ()
      ensures Valid() && fresh(buffer)
      ensures Contents() == []
    {
      assert RingSize(0) == ASYNC_BUFSIZE as int;
      buffer := new byte[ASYNC_BUFSIZE as int];
      bufferSize := ASYNC_BUFSIZE;
      readPos := 0;
      writePos := 0;
    }

    method BufferLen() returns (len: uint32)
      requires Valid()
      ensures len as int == |Contents()|
    {
      if writePos >= readPos {
        return writePos - readPos;
      } else {
        return bufferSize + writePos - readPos;
      }
    }

    method BufferPtrs() returns (bs: Buffers)
      requires Valid()
      ensures bs.buf1.Some? ==> bs.buf1.value + bs.len1 as int <= buffer.Length
      ensures bs.buf2.Some? ==> bs.buf1.Some? && bs.buf2.value + bs.len2 as int <= buffer.Length
      ensures Contents() == Part(buffer[..], bs.buf1, bs.len1) + Part(buffer[..], bs.buf2, bs.len2)
    {
      bs := Buffers(None, 0, None, 0);
      if readPos < writePos {
        bs := bs.(buf1 := Some(readPos as nat), len1 := writePos - readPos);
      } else if readPos > writePos {
        bs := bs.(buf1 := Some(readPos as nat), len1 := bufferSize - readPos);
        bs := bs.(buf2 := Some(0), len2 := writePos);
      }
    }

    /** The locked part of one pass of `aio_thread`: moves a chunk of the ring to the thread's own buffer. */
    method TakeChunk() returns (local: seq<byte>)
      requires Valid()
      requires readPos != writePos
      modifies this`readPos
      ensures Valid()
      ensures local == Chunk(old(Contents()))
      ensures Snapshot() == AfterTaking(old(Snapshot()))
      ensures Contents() == AfterChunk(old(Contents()))
    {
      hide AfterChunk, Ring.Queue, IsRingSize;
      var bs := BufferPtrs();
      TakingTakesChunk(Snapshot());
      var n1, n2;
      local, n1, n2 := CopyToLocal(Part(buffer[..], bs.buf1, bs.len1), Part(buffer[..], bs.buf2, bs.len2));
      readPos := Advanced(readPos, n1, n2);
    }

    /** `(read_pos + len1 + len2) % buffer_size`, which does not overflow. */
    method Advanced(pos: uint32, n1: uint32, n2: uint32) returns (next: uint32)
      requires Valid() && pos < bufferSize && n1 as int + n2 as int < bufferSize as int
      ensures next as int == (pos as int + n1 as int + n2 as int) % buffer.Length
      ensures next < bufferSize
    {
      next := (pos + n1 + n2) % bufferSize;
    }

    /**
      `aio_write_unlocked`, with or without regrowth, appends to the queue.
      The total must be below 2^31; see `RegrowthFitsIff` for why.
     */
    method WriteUnlocked(data: seq<byte>)
      requires Valid()
      requires |Contents()| + |data| < MAX_RING_SIZE
      modifies this, buffer
      ensures Valid()
      ensures buffer == old(buffer) || fresh(buffer)
      ensures Wrote(old(Snapshot()), data, Snapshot())
      ensures Contents() == old(Contents()) + data
    {
      hide Ring.Queue, IsRingSize, InPlace;
      ghost var before := Snapshot();
      var len := BufferLen();
      var remaining := bufferSize - len;
      var size := |data| as uint32;
      if size < remaining {
        WriteInPlace(data);
      } else {
        Regrow(data);
      }
      WroteAppends(before, data, Snapshot());
    }

    /** The branch of `aio_write_unlocked` that finds room in the ring, wrapping around its end if need be. */
    method WriteInPlace(data: seq<byte>)
      requires Valid()
      requires |Contents()| + |data| < bufferSize as int
      modifies this`writePos, buffer
      ensures Valid()
      ensures Snapshot() == InPlace(old(Snapshot()), data)
    {
      hide Ring.Queue, IsRingSize;
      var size := |data| as uint32;
      var remainingContiguous := bufferSize - writePos;
      if size > remainingContiguous {
        WriteAcrossEnd(data);
      } else {
        WriteBeforeEnd(data);
      }
    }

    method WriteAcrossEnd(data: seq<byte>)
      requires Valid()
      requires |Contents()| + |data| < bufferSize as int
      requires |data| > (bufferSize - writePos) as int
      modifies this`writePos, buffer
      ensures Valid()
      ensures Snapshot() == InPlace(old(Snapshot()), data)
    {
      hide Ring.Queue, IsRingSize, Stored;
      var size := |data| as uint32;
      var remainingContiguous := bufferSize - writePos;
      var first, rest := data[..remainingContiguous as int], data[remainingContiguous as int..];
      MemCopy(buffer, writePos as int, first);
      size := size - remainingContiguous;
      writePos := 0;
      MemCopy(buffer, writePos as int, rest);
      writePos := Advanced(writePos, size, 0);
    }

    method WriteBeforeEnd(data: seq<byte>)
      requires Valid()
      requires |Contents()| + |data| < bufferSize as int
      requires |data| <= (bufferSize - writePos) as int
      modifies this`writePos, buffer
      ensures Valid()
      ensures Snapshot() == InPlace(old(Snapshot()), data)
    {
      hide Ring.Queue, IsRingSize, Stored;
      MemCopy(buffer, writePos as int, data);
      writePos := Advanced(writePos, |data| as uint32, 0);
    }

    /** The branch that moves everything to a larger buffer. */
    method Regrow(data: seq<byte>)
      requires Valid()
      requires bufferSize as int <= |Contents()| + |data| < MAX_RING_SIZE
      modifies this
      ensures Valid() && fresh(buffer)
      ensures Regrown(old(Snapshot()), data, Snapshot())
    {
      hide Ring.Queue, IsRingSize;
      var len := BufferLen();
      var size := |data| as uint32;
      // One more than needed so that the new buffer is not completely filled.
      var newWritten := len + size + 1;
      var nextSize := NextBufferSize(bufferSize, newWritten);
      RingSizeBounds(nextSize as int);
      var nextBuffer := new byte[nextSize as int];
      var nextLen := Gather(nextBuffer);
      nextLen := AppendTo(nextBuffer, nextLen, data);
      buffer := nextBuffer;
      bufferSize := nextSize;
      readPos := 0;
      writePos := nextLen;
    }

    /** Copies the two stretches of the ring to the beginning of another buffer. */
    method Gather(nextBuffer: array<byte>) returns (nextLen: uint32)
      requires Valid() && nextBuffer != buffer && |Contents()| <= nextBuffer.Length < 0x1_0000_0000
      modifies nextBuffer
      ensures nextLen as int == |Contents()| && nextBuffer[..nextLen as int] == Contents()
    {
      hide Ring.Queue, IsRingSize;
      nextLen := 0;
      var bs := BufferPtrs();
      ghost var part1, part2 := Part(buffer[..], bs.buf1, bs.len1), Part(buffer[..], bs.buf2, bs.len2);
      if bs.buf1.Some? {
        nextLen := AppendTo(nextBuffer, nextLen, Part(buffer[..], bs.buf1, bs.len1));
        assert nextBuffer[..nextLen as int] == part1;
        if bs.buf2.Some? {
          nextLen := AppendTo(nextBuffer, nextLen, Part(buffer[..], bs.buf2, bs.len2));
        }
      }
    }
  }
}

/**
  The commit logic of downloads: data goes to memory and to a temporary file, which replaces the
  destination only when everything about the response is as it should be.
 */
module HttpDownload {
  import opened Machine
  import opened Sha256

  type Bytes = seq<bv8>

  /** The file system the requests work on. Every operation may fail; then it changes nothing. */
  class FileSystem {
    var files: map<string, Bytes>

    constructor ()
    {
      files := map[];
    }

    function Get(path: string): Option<Bytes>
      reads this
    {
      if path in files then Some(files[path]) else None
    }

    /** A write to an open file. */
    method Append(path: string, data: Bytes)
      modifies this
      ensures files == old(files)[path := (if path in old(files) then old(files)[path] else []) + data]
    {
      files := files[path := (if path in files then files[path] else []) + data];
    }

    method Remove(path: string, succeeds: bool)
      modifies this
      ensures files == if succeeds then old(files) - {path} else old(files)
    {
      if succeeds {
        files := files - {path};
      }
    }

    method Rename(from: string, to: string, succeeds: bool) returns (ok: bool)
      requires from != to
      modifies this
      ensures ok <==> succeeds && from in old(files)
      ensures files == if ok then (old(files) - {from})[to := old(files)[from]] else old(files)
    {
      ok := succeeds && from in files;
      if ok {
        files := (files - {from})[to := files[from]];
      }
    }
  }

  datatype HttpState = QUEUED | RUNNING | DONE | ERROR | ABORTED

  datatype Phase = Created | Transfer | Completed

  /** What a request was asked to do. */
  datatype Settings = Settings(
    maxResponseSize: int, skipByFileTime: bool, validate: bool, expectedSha256: Option<Bytes>,
    writeToMemory: bool, writeToFile: bool, dest: string, destTmp: string)
  {
    /** The temporary path is made from the destination's; only files are validated. */
    predicate Valid() {
      dest != destTmp && (validate ==> writeToFile)
    }
  }

  class HttpRequest {
    const fs: FileSystem
    const settings: Settings
    const ctx: Sha256State
    var validateBeforeOverwrite: bool
    var ifModifiedSince: int
    var responseLength: nat
    var statusCode: int
    var bufferSize: nat
    var buffer: array<bv8>
    var fileOpen: bool
    var state: HttpState

    /** What the destination was before. */
    ghost const original: Option<Bytes>
    ghost var phase: Phase
    /** The data of all calls of `OnData` that did not exceed the limit, and what of it was hashed. */
    ghost var received: Bytes
    ghost var hashed: Bytes
    /** A call of `OnData` returned something else than the length of its data. */
    ghost var failed: bool
    /** The destination has been replaced. */
    ghost var committed: bool
    ghost var validated: bool

    predicate NotModified()
      reads this`ifModifiedSince, this`statusCode
    {
      ifModifiedSince >= 0 && statusCode == 304
    }

    ghost predicate HashMatches()
      reads this`hashed
    {
      settings.expectedSha256.Some? ==> settings.expectedSha256.value == Digest(hashed)
    }

    /** The destination is as before, or it was replaced by exactly what was received, by a request that stays DONE. */
    ghost predicate DestinationSafe()
      reads this, fs
    {
      if committed then
        && settings.writeToFile && fs.Get(settings.dest) == Some(received)
        && phase.Completed? && state.DONE? && !failed && !NotModified() && HashMatches()
        && (settings.validate ==> validated)
      else fs.Get(settings.dest) == original
    }

    /** The temporary file holds everything received, as long as it may still be needed. */
    ghost predicate TemporaryComplete()
      reads this, fs
    {
      && (phase.Transfer? && settings.writeToFile && fileOpen && !failed ==> fs.Get(settings.destTmp) == Some(received))
      && (phase.Completed? && settings.writeToFile && validateBeforeOverwrite && state.DONE? && !NotModified() ==>
            fs.Get(settings.destTmp) == Some(received) && !committed && !failed && HashMatches())
    }

    /**
      The memory buffer starts with everything received, and the limit is respected. After "not
      modified" it starts with the existing file instead.
     */
    ghost predicate MemoryHolds()
      reads this, buffer
    {
      && (settings.maxResponseSize >= 0 ==> |received| <= settings.maxResponseSize)
      && (!phase.Completed? ==> bufferSize == buffer.Length)
      && (!phase.Completed? || !NotModified() ==>
            && responseLength == |received|
            && (settings.writeToMemory ==> responseLength <= buffer.Length && buffer[..responseLength] == received))
      && (phase.Completed? && NotModified() && state.DONE? && settings.writeToMemory ==>
            && responseLength <= buffer.Length && original == Some(buffer[..responseLength]))
    }

    /** What holds of the request and its files, apart from the hash context. */
    ghost predicate Consistent()
      reads this, fs, buffer
    {
      && settings.Valid()
      && (phase.Created? ==> received == [] && hashed == [] && !failed && !fileOpen)
      && (fileOpen ==> settings.writeToFile && !phase.Completed?)
      && (ifModifiedSince >= 0 ==> settings.writeToFile)
      && (!phase.Completed? ==> !committed && !validated && validateBeforeOverwrite == settings.validate)
      && (validateBeforeOverwrite ==> settings.validate)
      && (settings.validate && !validateBeforeOverwrite && !validated ==> !committed)
      && DestinationSafe() && TemporaryComplete() && MemoryHolds()
    }

    ghost predicate Valid()
      reads this, fs, buffer, ctx, ctx.state, ctx.buf
    {
      && buffer != ctx.buf
      && (!phase.Completed? ==> ctx.Valid() && ctx.message == hashed)
      && Consistent()
    }

    constructor (fs: FileSystem, settings: Settings)
      requires settings.Valid()
      ensures Valid() && phase.Created? && this.fs == fs && this.settings == settings
      ensures original == fs.Get(settings.dest) && ifModifiedSince == -1
      ensures fresh(ctx) && fresh(ctx.state) && fresh(ctx.buf) && fresh(buffer)
    {
      hide Sha256State.HoldsMessage;
      this.fs := fs;
      this.settings := settings;
      ctx := new Sha256State();
      validateBeforeOverwrite := settings.validate;
      ifModifiedSince := -1;
      responseLength := 0;
      statusCode := 0;
      bufferSize := 0;
      buffer := new bv8[0];
      fileOpen := false;
      state := QUEUED;
      original := fs.Get(settings.dest);
      phase := Created;
      received, hashed := [], [];
      failed, committed, validated := false, false, false;
    }

    /** `BeforeInit`. What the system answers is given: the time of an existing file and whether the folder and file can be made. */
    method BeforeInit(fileTime: Option<int>, folderOk: bool, openOk: bool) returns (ok: bool)
      requires Valid() && phase.Created?
      modifies this`ifModifiedSince, this`fileOpen, this`phase, fs
      ensures Valid()
      ensures phase == if ok then Transfer else Created
      ensures received == [] && hashed == [] && !failed
      ensures ok <==> (settings.writeToFile ==> folderOk && openOk)
      ensures ok && settings.writeToFile ==> fileOpen && fs.Get(settings.destTmp) == Some([])
      ensures ifModifiedSince == if settings.writeToFile && settings.skipByFileTime && fileTime.Some? then fileTime.value
                                 else old(ifModifiedSince)
      ensures forall p :: p != settings.destTmp ==> fs.Get(p) == old(fs.Get(p))
    {
      hide Digest, Sha256State.HoldsMessage;
      if settings.writeToFile {
        if settings.skipByFileTime && fileTime.Some? {
          ifModifiedSince := fileTime.value;
        }
        if !folderOk {
          return false;
        }
        if !openOk {
          return false;
        }
        fs.files := fs.files[settings.destTmp := []];
        fileOpen := true;
      }
      phase := Transfer;
      return true;
    }

    /** The data is within the limit on the whole response. */
    ghost predicate Fits(data: Bytes)
      reads this`received
    {
      settings.maxResponseSize >= 0 ==> |received| + |data| <= settings.maxResponseSize
    }

    /** `OnData`. The last parameter is how much of the data the file system writes. */
    method OnData(data: Bytes, written: nat) returns (result: nat)
      requires Valid() && phase.Transfer? && (settings.writeToFile ==> fileOpen) && written <= |data|
      modifies this`bufferSize, this`buffer, this`failed, this`received, this`hashed, this`responseLength
      modifies ctx, ctx.state, ctx.buf, buffer, fs
      ensures Valid()
      ensures fresh(buffer) || buffer == old(buffer)
      ensures failed == (old(failed) || result != |data|)
      ensures result == if !old(Fits(data)) then 0 else if settings.writeToFile then written else |data|
      ensures received == if old(Fits(data)) then old(received) + data else old(received)
      ensures hashed == if old(Fits(data)) then old(hashed) + Absorbed(data) else old(hashed)
      ensures old(Fits(data)) && settings.writeToFile && old(fs.Get(settings.destTmp)).Some? ==>
                fs.Get(settings.destTmp) == Some(old(fs.Get(settings.destTmp)).value + data[..written])
      ensures forall p :: p != settings.destTmp ==> fs.Get(p) == old(fs.Get(p))
    {
      hide Digest, Sha256State.HoldsMessage;
      if settings.maxResponseSize >= 0 && responseLength + |data| > settings.maxResponseSize {
        failed := failed || |data| != 0;
        return 0;
      }
      if |data| == 0 {
        AbsorbedAllIff(data);
        assert received + data == received && hashed + Absorbed(data) == hashed;
        assert forall content: Bytes :: content + data[..written] == content;
        return 0;
      }
      result := Accept(data, written);
    }

    /** The part of `OnData` for data within the limit. */
    method Accept(data: Bytes, written: nat) returns (result: nat)
      requires Valid() && phase.Transfer? && (settings.writeToFile ==> fileOpen) && written <= |data| && Fits(data)
      modifies this`bufferSize, this`buffer, this`failed, this`received, this`hashed, this`responseLength
      modifies ctx, ctx.state, ctx.buf, buffer, fs
      ensures Valid()
      ensures fresh(buffer) || buffer == old(buffer)
      ensures failed == (old(failed) || result != |data|)
      ensures result == if settings.writeToFile then written else |data|
      ensures received == old(received) + data && hashed == old(hashed) + Absorbed(data)
      ensures settings.writeToFile && old(fs.Get(settings.destTmp)).Some? ==>
                fs.Get(settings.destTmp) == Some(old(fs.Get(settings.destTmp)).value + data[..written])
      ensures forall p :: p != settings.destTmp ==> fs.Get(p) == old(fs.Get(p))
    {
      hide Digest, Absorbed, Sha256State.Valid, HashMatches, NotModified;
      ctx.Update(data);
      hashed := hashed + Absorbed(data);
      result := Store(data, written);
    }

    /** Stores the data in memory and in the file. */
    method Store(data: Bytes, written: nat) returns (result: nat)
      requires phase.Transfer? && !committed && written <= |data|
      requires TemporaryComplete() && MemoryHolds()
      requires settings.Valid() && (settings.writeToFile ==> fileOpen)
      requires Fits(data)
      modifies this`bufferSize, this`buffer, this`failed, this`received, this`responseLength, buffer, fs
      ensures TemporaryComplete() && MemoryHolds()
      ensures fresh(buffer) || buffer == old(buffer)
      ensures failed == (old(failed) || result != |data|)
      ensures result == if settings.writeToFile then written else |data|
      ensures received == old(received) + data
      ensures settings.writeToFile && old(fs.Get(settings.destTmp)).Some? ==>
                fs.Get(settings.destTmp) == Some(old(fs.Get(settings.destTmp)).value + data[..written])
      ensures forall p :: p != settings.destTmp ==> fs.Get(p) == old(fs.Get(p))
    {
      hide HashMatches, NotModified;
      result := |data|;
      if settings.writeToMemory {
        Remember(data);
      }
      if settings.writeToFile {
        result := written;
        AppendToFile(data, written);
      }
      failed := failed || result != |data|;
      received := received + data;
      responseLength := responseLength + |data|;
    }

    method AppendToFile(data: Bytes, written: nat)
      requires settings.Valid() && written <= |data|
      modifies fs
      ensures forall p :: p != settings.destTmp ==> fs.Get(p) == old(fs.Get(p))
      ensures old(fs.Get(settings.destTmp)).Some? ==>
                fs.Get(settings.destTmp) == Some(old(fs.Get(settings.destTmp)).value + data[..written])
      ensures written == |data| ==> data[..written] == data
    {
      fs.Append(settings.destTmp, data[..written]);
    }

    /** Appends to the memory buffer, doubling it until the data fits. */
    method Remember(data: Bytes)
      requires bufferSize == buffer.Length && responseLength <= bufferSize
      modifies this`bufferSize, this`buffer, buffer
      ensures bufferSize == buffer.Length && responseLength + |data| <= bufferSize
      ensures fresh(buffer) || buffer == old(buffer)
      ensures buffer[..responseLength + |data|] == old(buffer[..responseLength]) + data
    {
      var newBufferSize := if bufferSize < 1024 then 1024 else bufferSize;
      while responseLength + |data| > newBufferSize
        invariant newBufferSize >= 1024 && newBufferSize >= bufferSize
        decreases responseLength + |data| - newBufferSize
      {
        newBufferSize := newBufferSize * 2;
      }
      if newBufferSize != bufferSize {
        Reallocate(newBufferSize);
      }
      ghost var before := buffer[..];
      MemCopy(buffer, responseLength, data);
      assert buffer[..responseLength + |data|] == before[..responseLength] + data;
    }

    /** `realloc` to a larger size. */
    method Reallocate(size: nat)
      requires bufferSize == buffer.Length && bufferSize <= size
      modifies this`bufferSize, this`buffer
      ensures fresh(buffer) && bufferSize == buffer.Length == size
      ensures buffer[..old(bufferSize)] == old(buffer[..])
    {
      var before := buffer[..];
      buffer := new bv8[size](i => if 0 <= i < |before| then before[i] else 0);
      bufferSize := size;
    }

    /** With these answers a transfer that went well ends in DONE. */
    ghost predicate EndsWell(closeOk: bool, renameOk: bool, readOk: bool)
      reads this`ifModifiedSince, this`statusCode
    {
      settings.writeToFile ==>
        && closeOk
        && if NotModified() then settings.writeToMemory ==> readOk && original.Some? else settings.validate || renameOk
    }

    /**
      `OnCompletionInternal`. Given are the state the transfer ended in, the status code, and whether
      the system lets the file be closed, be renamed, be removed and, after "not modified", the old one
      be read.
     */
    method OnCompletionInternal(transferState: HttpState, status: int,
                                closeOk: bool, renameOk: bool, readOk: bool, removeOk: bool)
      requires Valid() && !phase.Completed?
      requires transferState in {DONE, ERROR, ABORTED}
      requires transferState.DONE? ==> phase.Transfer? && !failed && (settings.writeToFile ==> fileOpen)
      modifies this`statusCode, this`fileOpen, this`committed, this`buffer, this`responseLength, this`phase, this`state
      modifies ctx, ctx.state, ctx.buf, fs
      ensures Valid() && phase.Completed? && statusCode == status
      ensures buffer == old(buffer) || fresh(buffer)
      ensures forall p :: p != settings.dest && p != settings.destTmp ==> fs.Get(p) == old(fs.Get(p))
      ensures !transferState.DONE? ==> state == if old(fileOpen) && !closeOk then ERROR else transferState
      ensures !transferState.DONE? && !removeOk ==> fs.files == old(fs.files)
      ensures committed <==>
                && settings.writeToFile && transferState.DONE? && HashMatches() && !NotModified() && closeOk && renameOk
                && !settings.validate
      ensures transferState.DONE? ==> state == if HashMatches() && EndsWell(closeOk, renameOk, readOk) then DONE else ERROR
      ensures settings.writeToFile && removeOk && !(settings.validate && state.DONE? && !NotModified()) ==> fs.Get(settings.destTmp).None?
    {
      hide Digest, Sha256State.Valid, HashMatches, Consistent;
      var s := transferState;
      if s.DONE? {
        s := CheckHash();
      }
      Complete(s, status, closeOk, renameOk, readOk, removeOk);
    }

    /** The rest of it, once the hash has been compared. */
    method Complete(s0: HttpState, status: int, closeOk: bool, renameOk: bool, readOk: bool, removeOk: bool)
      requires Consistent() && !phase.Completed?
      requires s0 in {DONE, ERROR, ABORTED}
      requires s0.DONE? ==> phase.Transfer? && !failed && (settings.writeToFile ==> fileOpen) && HashMatches()
      modifies this`statusCode, this`fileOpen, this`committed, this`buffer, this`responseLength, this`phase, this`state, fs
      ensures Consistent() && phase.Completed? && statusCode == status
      ensures buffer == old(buffer) || fresh(buffer)
      ensures forall p :: p != settings.dest && p != settings.destTmp ==> fs.Get(p) == old(fs.Get(p))
      ensures !s0.DONE? ==> state == if old(fileOpen) && !closeOk then ERROR else s0
      ensures !s0.DONE? && !removeOk ==> fs.files == old(fs.files)
      ensures committed <==> settings.writeToFile && s0.DONE? && !NotModified() && closeOk && renameOk && !settings.validate
      ensures s0.DONE? ==> state == if EndsWell(closeOk, renameOk, readOk) then DONE else ERROR
      ensures settings.writeToFile && removeOk && !(settings.validate && state.DONE? && !NotModified()) ==> fs.Get(settings.destTmp).None?
    {
      hide Digest, HashMatches;
      statusCode := status;
      var s := s0;
      if settings.writeToFile {
        s := CompleteFile(s, closeOk, renameOk, readOk, removeOk);
      }
      phase := Completed;
      state := s;
    }

    /** Compares the hash of what was received with the expected one, if there is one. */
    method CheckHash() returns (s: HttpState)
      requires ctx.Valid() && ctx.message == hashed
      modifies ctx, ctx.state, ctx.buf
      ensures s == if HashMatches() then DONE else ERROR
    {
      hide Digest;
      var actual := ctx.Finish();
      s := if settings.expectedSha256.Some? && actual != settings.expectedSha256.value then ERROR else DONE;
    }

    /** What `OnCompletionInternal` does with the file of a request that writes to one. */
    method CompleteFile(s0: HttpState, closeOk: bool, renameOk: bool, readOk: bool, removeOk: bool) returns (s: HttpState)
      requires settings.Valid() && settings.writeToFile && !committed && DestinationSafe()
      requires validateBeforeOverwrite == settings.validate
      requires s0 in {DONE, ERROR, ABORTED}
      requires s0.DONE? ==> fileOpen && fs.Get(settings.destTmp) == Some(received)
      modifies this`fileOpen, this`committed, this`buffer, this`responseLength, fs
      ensures !fileOpen && s in {DONE, ERROR, ABORTED} && (s.DONE? ==> s0.DONE?)
      ensures !s0.DONE? ==> s == if old(fileOpen) && !closeOk then ERROR else s0
      ensures !s0.DONE? && !removeOk ==> fs.files == old(fs.files)
      ensures s0.DONE? ==> s == if EndsWell(closeOk, renameOk, readOk) then DONE else ERROR
      ensures removeOk && !(validateBeforeOverwrite && s.DONE? && !NotModified()) ==> fs.Get(settings.destTmp).None?
      ensures committed ==> s.DONE? && !NotModified() && !validateBeforeOverwrite && fs.Get(settings.dest) == Some(received)
      ensures !committed ==> fs.Get(settings.dest) == original
      ensures committed <==> s0.DONE? && closeOk && renameOk && !NotModified() && !validateBeforeOverwrite
      ensures s.DONE? && !NotModified() && validateBeforeOverwrite ==> !committed && fs.Get(settings.destTmp) == Some(received)
      ensures if s.DONE? && NotModified() && settings.writeToMemory then
                fresh(buffer) && responseLength <= buffer.Length && original == Some(buffer[..responseLength])
              else
                NotModified() || (buffer == old(buffer) && responseLength == old(responseLength))
      ensures buffer == old(buffer) || fresh(buffer)
      ensures forall p :: p != settings.dest && p != settings.destTmp ==> fs.Get(p) == old(fs.Get(p))
    {
      s := s0;
      if fileOpen && !closeOk {
        s := ERROR;
      }
      fileOpen := false;
      if s.ERROR? || s.ABORTED? {
        fs.Remove(settings.destTmp, removeOk);
      } else if NotModified() {
        fs.Remove(settings.destTmp, removeOk);
        if settings.writeToMemory {
          s := ReadExisting(readOk);
        }
      } else if !validateBeforeOverwrite {
        var ok := fs.Rename(settings.destTmp, settings.dest, renameOk);
        committed := ok;
        if !ok {
          s := ERROR;
          fs.Remove(settings.destTmp, removeOk);
        }
      }
    }

    /** After "not modified" the old file takes the place of the response in memory. */
    method ReadExisting(readOk: bool) returns (next: HttpState)
      modifies this`buffer, this`responseLength
      ensures next in {DONE, ERROR} && fresh(buffer)
      ensures next.DONE? <==> readOk && settings.dest in fs.files
      ensures next.DONE? ==> responseLength <= buffer.Length && fs.Get(settings.dest) == Some(buffer[..responseLength])
    {
      responseLength := 0;
      buffer := new bv8[0];
      if readOk && settings.dest in fs.files {
        var content := fs.files[settings.dest];
        buffer := new bv8[|content|](i requires 0 <= i < |content| => content[i]);
        responseLength := |content|;
        assert buffer[..responseLength] == content;
        return DONE;
      }
      return ERROR;
    }

    /** What `OnValidation` does with these answers moves the temporary file to the destination. */
    predicate Commits(success: bool, renameOk: bool)
      reads this`ifModifiedSince, this`statusCode, fs
    {
      success && !NotModified() && renameOk && settings.destTmp in fs.files
    }

    /**
      `OnValidation` of a completed request. It is safe, whatever the answers are, on a request that is
      DONE, and on any other one exactly if it commits nothing; see `ValidationOfUnfinished` for what it
      may commit otherwise.
     */
    method OnValidation(success: bool, renameOk: bool, removeOk: bool)
      requires Valid() && phase.Completed? && validateBeforeOverwrite
      modifies this`validateBeforeOverwrite, this`state, this`committed, this`validated, fs
      ensures Valid() <==> old(state).DONE? || !old(Commits(success, renameOk))
      ensures !validateBeforeOverwrite
      ensures old(state).DONE? && !NotModified() ==> (committed <==> success && renameOk)
      ensures old(state).DONE? && NotModified() ==> !committed
      ensures fs.Get(settings.dest) == old(if Commits(success, renameOk) then fs.Get(settings.destTmp) else fs.Get(settings.dest))
      ensures !success ==> state.ERROR? && committed == old(committed)
      ensures success ==> state == if NotModified() || old(Commits(success, renameOk)) then old(state) else ERROR
      ensures removeOk ==> fs.Get(settings.destTmp).None?
      ensures validated == (old(validated) || success)
      ensures forall p :: p != settings.dest && p != settings.destTmp ==> fs.Get(p) == old(fs.Get(p))
    {
      hide Sha256State.Valid, HashMatches;
      validateBeforeOverwrite := false;
      if success {
        validated := true;
        if NotModified() {
          fs.Remove(settings.destTmp, removeOk);
          return;
        }
        MoveToDestination(renameOk, removeOk);
      } else {
        state := ERROR;
        fs.Remove(settings.destTmp, removeOk);
      }
    }

    method MoveToDestination(renameOk: bool, removeOk: bool)
      requires settings.Valid()
      modifies this`state, this`committed, fs
      ensures renameOk && settings.destTmp in old(fs.files) ==>
                committed && state == old(state) && fs.Get(settings.dest) == old(fs.Get(settings.destTmp))
      ensures removeOk ==> fs.Get(settings.destTmp).None?
      ensures !(renameOk && settings.destTmp in old(fs.files)) ==>
                committed == old(committed) && state.ERROR? && fs.Get(settings.dest) == old(fs.Get(settings.dest))
      ensures forall p :: p != settings.dest && p != settings.destTmp ==> fs.Get(p) == old(fs.Get(p))
    {
      var ok := fs.Rename(settings.destTmp, settings.dest, renameOk);
      if ok {
        committed := true;
      } else {
        state := ERROR;
        fs.Remove(settings.destTmp, removeOk);
      }
    }

    /** The destructor of a request that has completed. */
    method Destroy(removeOk: bool)
      requires Valid() && phase.Completed?
      modifies this`validateBeforeOverwrite, this`state, this`committed, this`validated, fs
      ensures Valid() && phase.Completed?
      ensures fs.Get(settings.dest) == old(fs.Get(settings.dest))
      ensures committed == old(committed) && validated == old(validated)
      ensures state == if old(state.DONE? && validateBeforeOverwrite) then ERROR else old(state)
      ensures removeOk && old(state.DONE? && validateBeforeOverwrite) ==> fs.Get(settings.destTmp).None?
      ensures !old(state.DONE? && validateBeforeOverwrite) ==> fs.files == old(fs.files)
      ensures forall p :: p != settings.dest && p != settings.destTmp ==> fs.Get(p) == old(fs.Get(p))
    {
      if state.DONE? && validateBeforeOverwrite {
        OnValidation(false, false, removeOk);
      }
    }
  }

  // ---------------------------------------------------------------------------------------------
  // The whole life of a request
  // ---------------------------------------------------------------------------------------------

  /** Some received data, and how much of it the file system writes. */
  datatype Piece = Piece(data: Bytes, written: nat)

  /** What happens to a request from outside, in full. */
  datatype Life = Life(fileTime: Option<int>, folderOk: bool, openOk: bool, pieces: seq<Piece>,
                       outcome: HttpState, status: int, closeOk: bool, renameOk: bool, readOk: bool,
                       removeOk: bool, validation: Option<bool>)
  {
    predicate Valid() {
      && outcome in {DONE, ERROR, ABORTED}
      && forall i :: 0 <= i < |pieces| ==> pieces[i].written <= |pieces[i].data|
    }

    function Data(): (data: seq<Bytes>)
      ensures |data| == |pieces|
    {
      seq(|pieces|, i requires 0 <= i < |pieces| => pieces[i].data)
    }

    /** What the hash is taken of: each piece as far as its 32-bit length goes. */
    function Hashed(): (data: seq<Bytes>)
      ensures |data| == |pieces|
    {
      AbsorbedParts(Data())
    }

    /** The transfer of the first `n` pieces goes well. */
    ghost predicate Taken(settings: Settings, n: nat)
      requires n <= |pieces|
    {
      && (settings.maxResponseSize >= 0 ==> |Concat(Data()[..n])| <= settings.maxResponseSize)
      && (settings.writeToFile ==> forall i :: 0 <= i < n ==> pieces[i].written == |pieces[i].data|)
    }

    predicate SaysNotModified(settings: Settings) {
      settings.writeToFile && settings.skipByFileTime && fileTime.Some? && fileTime.value >= 0 && status == 304
    }

    ghost predicate HasExpectedHash(settings: Settings) {
      settings.expectedSha256.Some? ==> settings.expectedSha256.value == Digest(Concat(Hashed()))
    }

    /** A new file has arrived as expected. */
    ghost predicate Arrives(settings: Settings) {
      && settings.writeToFile && folderOk && openOk && Taken(settings, |pieces|) && outcome.DONE?
      && HasExpectedHash(settings) && !SaysNotModified(settings) && closeOk
    }

    /** All that has to go well for the request to end in DONE, before validation. */
    ghost predicate Completes(settings: Settings, existed: bool) {
      && Taken(settings, |pieces|) && outcome.DONE? && HasExpectedHash(settings)
      && (settings.writeToFile ==>
            && folderOk && openOk && closeOk
            && if SaysNotModified(settings) then settings.writeToMemory ==> readOk && existed
               else settings.validate || renameOk)
    }

    /** And after it. */
    ghost predicate EndsDone(settings: Settings, existed: bool) {
      && Completes(settings, existed)
      && (settings.validate ==> validation == Some(true) && (SaysNotModified(settings) || renameOk))
    }

    /** All that has to go well for the destination to be replaced. */
    ghost predicate Succeeds(settings: Settings) {
      Arrives(settings) && renameOk && (settings.validate ==> validation == Some(true))
    }
  }

  lemma {:induction false} ConcatLength(parts: seq<Bytes>, n: nat)
    requires n <= |parts|
    ensures |Concat(parts[..n])| <= |Concat(parts)|
    decreases |parts| - n
  {
    if n == |parts| {
      assert parts[..n] == parts;
    } else {
      ConcatSnoc(parts, n);
      ConcatLength(parts, n + 1);
    }
  }

  /**
    A request from its construction to its destruction, whatever data, errors and answers it gets. Its
    destination is replaced exactly if everything goes well, by exactly the data received, which then
    has the expected hash; otherwise it is left alone.
   */
  method Download(fs: FileSystem, settings: Settings, life: Life) returns (r: HttpRequest)
    requires settings.Valid() && life.Valid()
    modifies fs
    ensures r.Valid() && r.settings == settings && r.fs == fs
    ensures r.committed <==> life.Succeeds(settings)
    ensures r.state.DONE? <==> life.EndsDone(settings, old(fs.Get(settings.dest)).Some?)
    ensures settings.writeToFile && !life.SaysNotModified(settings) ==> (r.state.DONE? <==> r.committed)
    ensures settings.writeToFile && life.removeOk ==> fs.Get(settings.destTmp).None?
    ensures r.state.DONE? && settings.writeToMemory ==>
              && r.responseLength <= r.buffer.Length
              && Some(r.buffer[..r.responseLength]) ==
                 if life.SaysNotModified(settings) then old(fs.Get(settings.dest)) else Some(Concat(life.Data()))
    ensures fs.Get(settings.dest) == if r.committed then Some(Concat(life.Data())) else old(fs.Get(settings.dest))
    ensures (r.committed && settings.expectedSha256.Some?
              && forall i :: 0 <= i < |life.pieces| ==> |life.pieces[i].data| < 0x1_0000_0000)
            ==> settings.expectedSha256.value == Digest(Concat(life.Data()))
    ensures forall p :: p != settings.dest && p != settings.destTmp ==> fs.Get(p) == old(fs.Get(p))
  {
    hide Concat, Digest, Life.Arrives, Life.Hashed, HttpRequest.TemporaryComplete, HttpRequest.MemoryHolds, Sha256State.Valid;
    r := new HttpRequest(fs, settings);
    Perform(r, life);
    if life.validation.Some? && r.validateBeforeOverwrite && r.state.DONE? {
      r.OnValidation(life.validation.value, life.renameOk, life.removeOk);
    }
    r.Destroy(life.removeOk);
    if r.state.DONE? && settings.writeToMemory {
      ResultInMemory(r);
    }
    DoneIffReplaced(settings, life, old(fs.Get(settings.dest)).Some?);
    if (r.committed && settings.expectedSha256.Some?
        && forall i :: 0 <= i < |life.pieces| ==> |life.pieces[i].data| < 0x1_0000_0000) {
      ExpectedHash(settings, life);
    }
  }

  /** A request that writes a new file is DONE in the end exactly if the file is in its place. */
  lemma DoneIffReplaced(settings: Settings, life: Life, existed: bool)
    requires settings.Valid()
    ensures settings.writeToFile && !life.SaysNotModified(settings) ==>
              (life.EndsDone(settings, existed) <==> life.Succeeds(settings))
  {
    hide Life.Taken, Life.HasExpectedHash;
  }

  lemma ExpectedHash(settings: Settings, life: Life)
    requires forall i :: 0 <= i < |life.pieces| ==> |life.pieces[i].data| < 0x1_0000_0000
    requires life.Arrives(settings) && settings.expectedSha256.Some?
    ensures settings.expectedSha256.value == Digest(Concat(life.Data()))
  {
    hide Concat, Digest;
    AbsorbedPartsAll(life.Data());
  }

  /** The request up to its completion: a new file has arrived or the destination is left alone. */
  method Perform(r: HttpRequest, life: Life)
    requires r.Valid() && r.phase.Created? && r.ifModifiedSince == -1 && r.settings.Valid() && life.Valid()
    modifies r`statusCode, r`fileOpen, r`committed, r`phase, r`state, r`ifModifiedSince
    modifies r`bufferSize, r`buffer, r`failed, r`received, r`hashed, r`responseLength
    modifies r.ctx, r.ctx.state, r.ctx.buf, r.buffer, r.fs
    ensures r.Valid() && r.phase.Completed?
    ensures r.committed <==> life.Arrives(r.settings) && life.renameOk && !r.settings.validate
    ensures r.settings.validate ==> (life.Arrives(r.settings) <==> r.state.DONE? && !r.NotModified())
    ensures r.state.DONE? <==> life.Completes(r.settings, r.original.Some?)
    ensures r.NotModified() <==> life.SaysNotModified(r.settings)
    ensures r.settings.writeToFile && life.removeOk && !(r.settings.validate && r.state.DONE? && !r.NotModified()) ==>
              r.fs.Get(r.settings.destTmp).None?
    ensures r.state.DONE? || life.Arrives(r.settings) ==> r.received == Concat(life.Data())
    ensures r.buffer == old(r.buffer) || fresh(r.buffer)
    ensures forall p :: p != r.settings.dest && p != r.settings.destTmp ==> r.fs.Get(p) == old(r.fs.Get(p))
  {
    hide Concat, Digest, Life.Taken, Life.Hashed, HttpRequest.Valid, HttpRequest.Consistent;
    var outcome := ABORTED;
    var ok := r.BeforeInit(life.fileTime, life.folderOk, life.openOk);
    if ok {
      var complete := Transferring(r, life);
      outcome := if complete then life.outcome else ERROR;
    }
    r.OnCompletionInternal(outcome, life.status, life.closeOk, life.renameOk, life.readOk, life.removeOk);
  }

  /** What `Result` gives out. */
  lemma ResultInMemory(r: HttpRequest)
    requires r.Valid() && r.phase.Completed? && r.state.DONE? && r.settings.writeToMemory
    ensures r.responseLength <= r.buffer.Length
    ensures Some(r.buffer[..r.responseLength]) == if r.NotModified() then r.original else Some(r.received)
  {
    hide Digest;
  }

  /** The transfer of the data, which stops at the first piece that is not taken in full. */
  method Transferring(r: HttpRequest, life: Life) returns (complete: bool)
    requires r.Valid() && r.phase.Transfer? && (r.settings.writeToFile ==> r.fileOpen) && life.Valid()
    requires r.received == [] && r.hashed == [] && !r.failed
    modifies r`bufferSize, r`buffer, r`failed, r`received, r`hashed, r`responseLength
    modifies r.ctx, r.ctx.state, r.ctx.buf, r.buffer, r.fs
    ensures r.Valid()
    ensures complete <==> life.Taken(r.settings, |life.pieces|)
    ensures complete ==> !r.failed && r.received == Concat(life.Data()) && r.hashed == Concat(life.Hashed())
    ensures r.buffer == old(r.buffer) || fresh(r.buffer)
    ensures forall p :: p != r.settings.destTmp ==> r.fs.Get(p) == old(r.fs.Get(p))
  {
    hide HttpRequest.Valid, HttpRequest.HashMatches, Concat, Absorbed;
    ghost var data, hashed := life.Data(), life.Hashed();
    complete := true;
    var i := 0;
    ConcatNone();
    while complete && i < |life.pieces|
      invariant 0 <= i <= |life.pieces|
      invariant r.Valid()
      invariant if complete then life.Taken(r.settings, i) && !r.failed else !life.Taken(r.settings, |life.pieces|)
      invariant complete ==> r.received == Concat(data[..i]) && r.hashed == Concat(hashed[..i])
      invariant r.buffer == old(r.buffer) || fresh(r.buffer)
      invariant forall p :: p != r.settings.destTmp ==> r.fs.Get(p) == old(r.fs.Get(p))
    {
      var piece := life.pieces[i];
      ConcatSnoc(data, i);
      ConcatSnoc(hashed, i);
      ConcatLength(data, i + 1);
      var n := r.OnData(piece.data, piece.written);
      complete := n == |piece.data|;
      TakenMore(life, r.settings, i);
      i := i + 1;
    }
    assert data[..|data|] == data && hashed[..|hashed|] == hashed;
  }

  lemma TakenMore(life: Life, settings: Settings, i: nat)
    requires i < |life.pieces| && life.Taken(settings, i)
    ensures var total, piece := |Concat(life.Data()[..i + 1])|, life.pieces[i];
            if (settings.maxResponseSize >= 0 ==> total <= settings.maxResponseSize)
               && (settings.writeToFile ==> piece.written == |piece.data|) then
              life.Taken(settings, i + 1)
            else !life.Taken(settings, |life.pieces|)
  {
    hide Concat;
    var data := life.Data();
    ConcatLength(data, i + 1);
    assert data[..|data|] == data;
  }

  // ---------------------------------------------------------------------------------------------
  // Validation of a request that is not done
  // ---------------------------------------------------------------------------------------------

  /**
    Why `OnValidation(true)` may only be called on a request that is DONE: for every other state a request
    can end in, all settings with validation, and all data within the limit, there is one of whose data
    any part was written and could not be removed, and that part replaces the destination.
   */
  method ValidationOfUnfinished(fs: FileSystem, settings: Settings, outcome: HttpState, data: Bytes, written: nat)
    returns (r: HttpRequest)
    requires settings.Valid() && settings.validate && outcome in {ERROR, ABORTED}
    requires written <= |data| && (settings.maxResponseSize >= 0 ==> |data| <= settings.maxResponseSize)
    modifies fs
    ensures r.settings == settings && r.state == outcome && r.received == data
    ensures r.original == old(fs.Get(settings.dest)) && fs.Get(settings.dest) == Some(data[..written])
    ensures !r.Valid()
  {
    hide Digest, HttpRequest.MemoryHolds, Sha256State.Valid;
    r := new HttpRequest(fs, settings);
    var ok := r.BeforeInit(None, true, true);
    var none: Bytes := [];
    var n := r.OnData(data, written);
    assert none + data[..written] == data[..written] && none + data == data;
    r.OnCompletionInternal(outcome, 200, true, true, true, false);
    r.OnValidation(true, true, true);
  }
}

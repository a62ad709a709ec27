/**
  `InitAndroid` itself, one file operation at a time, each of which may fail: it takes only steps of the
  state machine, and the disk goes through the very states of those steps.
 */
module AndroidStorage {
  import opened Machine
  import opened AndroidSync

  /** How a file operation goes; a failing write has written that many bytes. */
  datatype Answer = Works | Fails(written: nat)

  /** The disks a sequence goes through, without repetitions. */
  ghost function Changes(disks: seq<Disk>): seq<Disk> {
    if |disks| <= 1 then disks
    else
      var n := |disks| - 1;
      if disks[n] == disks[n - 1] then Changes(disks[..n]) else Changes(disks[..n]) + [disks[n]]
  }

  ghost function DisksOf(trace: seq<State>): (disks: seq<Disk>)
    ensures |disks| == |trace|
  {
    seq(|trace|, i requires 0 <= i < |trace| => trace[i].disk)
  }

  lemma ChangesSnoc(disks: seq<Disk>, d: Disk)
    requires disks != []
    ensures Changes(disks + [d]) == if d == disks[|disks| - 1] then Changes(disks) else Changes(disks) + [d]
  {
    assert (disks + [d])[..|disks|] == disks;
  }

  lemma DisksOfSnoc(trace: seq<State>, s: State)
    ensures DisksOf(trace + [s]) == DisksOf(trace) + [s.disk]
  {
  }

  /** How many of the operations from the `n`th to the one before the `m`th fail. */
  function FailuresUpTo(answers: nat -> Answer, n: nat, m: nat): nat {
    if m <= n then 0 else FailuresUpTo(answers, n, m - 1) + if answers(m - 1).Fails? then 1 else 0
  }

  lemma {:induction false} FailuresMonotone(answers: nat -> Answer, n: nat, n': nat, m: nat, m': nat)
    requires n <= n' && m <= m'
    ensures FailuresUpTo(answers, n', m) <= FailuresUpTo(answers, n, m')
    decreases m'
  {
    if m' > n {
      FailuresMonotone(answers, n, n', if m < m' then m else m' - 1, m' - 1);
    }
  }

  predicate IsStale(lines: seq<Line>, saveLines: seq<Line>, j: nat) {
    1 <= j < |saveLines| && !Lists(lines, saveLines[j].filename)
  }

  /** The stale lines before line `n`: as many removals have been tried by then. */
  function StaleBefore(lines: seq<Line>, saveLines: seq<Line>, n: nat): nat {
    if n == 0 then 0 else StaleBefore(lines, saveLines, n - 1) + if IsStale(lines, saveLines, n - 1) then 1 else 0
  }

  /** The stale files before line `n` whose removal fails, when the first one is the operation `first`. */
  ghost function NotRemoved(lines: seq<Line>, saveLines: seq<Line>, n: nat, answers: nat -> Answer, first: nat): set<Path> {
    set j: nat | j < n && IsStale(lines, saveLines, j) && answers(first + StaleBefore(lines, saveLines, j)).Fails? ::
      saveLines[j].filename
  }

  lemma NotRemovedStep(lines: seq<Line>, saveLines: seq<Line>, n: nat, answers: nat -> Answer, first: nat)
    requires n < |saveLines|
    ensures NotRemoved(lines, saveLines, n + 1, answers, first) ==
              NotRemoved(lines, saveLines, n, answers, first)
              + if IsStale(lines, saveLines, n) && answers(first + StaleBefore(lines, saveLines, n)).Fails? then
                  {saveLines[n].filename}
                else {}
  {
    hide IsStale, StaleBefore;
  }

  lemma StaleBeforeStep(lines: seq<Line>, saveLines: seq<Line>, n: nat)
    ensures StaleBefore(lines, saveLines, n + 1) == StaleBefore(lines, saveLines, n) + if IsStale(lines, saveLines, n) then 1 else 0
  {
    hide IsStale;
  }

  lemma FailuresStep(answers: nat -> Answer, n: nat, m: nat, m': nat)
    requires n <= m <= m' <= m + 1
    ensures FailuresUpTo(answers, n, m') == FailuresUpTo(answers, n, m) + if m < m' && answers(m).Fails? then 1 else 0
  {
  }

  lemma NoFailures(answers: nat -> Answer, n: nat)
    ensures FailuresUpTo(answers, n, n) == 0
  {
  }

  lemma OneMore(failed: set<Path>, p: Path)
    ensures |failed + {p}| <= |failed| + 1 && failed + {} == failed
  {
  }

  lemma NothingStaleFirst(lines: seq<Line>, saveLines: seq<Line>, answers: nat -> Answer, first: nat)
    ensures StaleBefore(lines, saveLines, 1) == 0 && NotRemoved(lines, saveLines, 1, answers, first) == {}
  {
    assert StaleBefore(lines, saveLines, 0) == 0;
  }

  class Storage {
    const answers: nat -> Answer
    var operations: nat
    var data: map<Path, Bytes>
    var index: Option<IndexFile>
    var save: Option<IndexFile>

    /** The disk at the beginning and after each file operation. */
    ghost var log: seq<Disk>
    /** The steps of the state machine so far. */
    ghost var trace: seq<State>

    constructor (answers: nat -> Answer, disk: Disk)
      ensures OnDisk() == disk && this.answers == answers
    {
      this.answers := answers;
      operations := 0;
      data, index, save := disk.data, disk.index, disk.save;
      log, trace := [], [];
    }

    function OnDisk(): Disk
      reads this`data, this`index, this`save
    {
      Disk(data, index, save)
    }

    // The file operations, which alone change the disk.

    method Answered() returns (a: Answer)
      modifies this`operations
      ensures a == answers(old(operations)) && operations == old(operations) + 1
    {
      a := answers(operations);
      operations := operations + 1;
    }

    method OpenIndex() returns (ok: bool)
      modifies this`operations, this`index, this`log
      ensures ok == answers(old(operations)).Works? && operations == old(operations) + 1
      ensures OnDisk() == if ok then old(OnDisk()).(index := Some(Torn)) else old(OnDisk())
      ensures log == old(log) + [OnDisk()]
    {
      var a := Answered();
      ok := a.Works?;
      if ok {
        index := Some(Torn);
      }
      log := log + [OnDisk()];
    }

    method WriteIndex(lines: seq<Line>) returns (ok: bool)
      modifies this`operations, this`index, this`log
      ensures ok == answers(old(operations)).Works? && operations == old(operations) + 1
      ensures OnDisk() == if ok then old(OnDisk()).(index := Some(Whole(lines))) else old(OnDisk())
      ensures log == old(log) + [OnDisk()]
    {
      var a := Answered();
      ok := a.Works?;
      if ok {
        index := Some(Whole(lines));
      }
      log := log + [OnDisk()];
    }

    method OpenFile(p: Path) returns (ok: bool)
      modifies this`operations, this`data, this`log
      ensures ok == answers(old(operations)).Works? && operations == old(operations) + 1
      ensures OnDisk() == if ok then old(OnDisk()).(data := old(data)[p := []]) else old(OnDisk())
      ensures log == old(log) + [OnDisk()]
    {
      var a := Answered();
      ok := a.Works?;
      if ok {
        data := data[p := []];
      }
      log := log + [OnDisk()];
    }

    method WriteFile(p: Path, content: Bytes) returns (ok: bool, written: nat)
      modifies this`operations, this`data, this`log
      ensures ok == answers(old(operations)).Works? && operations == old(operations) + 1
      ensures written <= |content| && (ok ==> written == |content|)
      ensures OnDisk() == old(OnDisk()).(data := old(data)[p := content[..written]])
      ensures log == old(log) + [OnDisk()]
    {
      var a := Answered();
      ok := a.Works?;
      written := if a.Works? || a.written > |content| then |content| else a.written;
      data := data[p := content[..written]];
      log := log + [OnDisk()];
    }

    method RemoveFile(p: Path) returns (ok: bool)
      modifies this`operations, this`data, this`log
      ensures ok == answers(old(operations)).Works? && operations == old(operations) + 1
      ensures OnDisk() == if ok then old(OnDisk()).(data := old(data) - {p}) else old(OnDisk())
      ensures log == old(log) + [OnDisk()]
    {
      var a := Answered();
      ok := a.Works?;
      if ok {
        data := data - {p};
      }
      log := log + [OnDisk()];
    }

    method RemoveSave() returns (ok: bool)
      modifies this`operations, this`save, this`log
      ensures ok == answers(old(operations)).Works? && operations == old(operations) + 1
      ensures OnDisk() == if ok then old(OnDisk()).(save := None) else old(OnDisk())
      ensures log == old(log) + [OnDisk()]
    {
      var a := Answered();
      ok := a.Works?;
      if ok {
        save := None;
      }
      log := log + [OnDisk()];
    }

    method RenameIndex() returns (ok: bool)
      modifies this`operations, this`save, this`index, this`log
      ensures ok == answers(old(operations)).Works? && operations == old(operations) + 1
      ensures OnDisk() == if ok then old(OnDisk()).(save := old(index), index := None) else old(OnDisk())
      ensures log == old(log) + [OnDisk()]
    {
      var a := Answered();
      ok := a.Works?;
      if ok {
        save, index := index, None;
      }
      log := log + [OnDisk()];
    }

    // How they follow the state machine.

    ghost function Last(): State
      requires trace != []
      reads this`trace
    {
      trace[|trace| - 1]
    }

    /** The trace has gone through the disks of the log, and is now at this one. */
    ghost predicate Traced(assets: Assets)
      reads this
    {
      && trace != [] && Steps(trace, assets) && Last().disk == OnDisk()
      && log != [] && log[|log| - 1] == OnDisk()
      && Changes(DisksOf(trace)) == Changes(log)
    }

    /** All operations from the `n`th to the last so far have worked. */
    ghost predicate WorkedFrom(n: nat)
      reads this`operations
    {
      forall k :: n <= k < operations ==> answers(k).Works?
    }

    /** A step of the program that leaves the disk alone. */
    ghost method Think(assets: Assets, step: Step)
      requires Traced(assets) && Enabled(Last(), assets, step) && Apply(Last(), assets, step).disk == OnDisk()
      modifies this`trace
      ensures Traced(assets) && trace[0] == old(trace[0]) && Last() == Apply(old(Last()), assets, step)
    {
      hide Steps, Changes, Enabled, Apply;
      var next := Apply(Last(), assets, step);
      ChangesSnoc(DisksOf(trace), next.disk);
      DisksOfSnoc(trace, next);
      StepsMore(trace, assets, step);
      trace := trace + [next];
    }

    /** A step of the program that a file operation has just carried out. */
    ghost method Did(assets: Assets, step: Step, before: seq<Disk>)
      requires trace != [] && Steps(trace, assets) && before != [] && before[|before| - 1] == Last().disk
      requires Changes(DisksOf(trace)) == Changes(before) && log == before + [OnDisk()]
      requires Enabled(Last(), assets, step) && Apply(Last(), assets, step).disk == OnDisk()
      modifies this`trace
      ensures Traced(assets) && trace[0] == old(trace[0]) && Last() == Apply(old(Last()), assets, step)
    {
      hide Steps, Changes, Enabled, Apply;
      var next := Apply(Last(), assets, step);
      ChangesSnoc(DisksOf(trace), next.disk);
      ChangesSnoc(before, next.disk);
      DisksOfSnoc(trace, next);
      StepsMore(trace, assets, step);
      trace := trace + [next];
    }

    /** `InitAndroid`: null for true, an error message for false. */
    method InitAndroid(assets: Assets) returns (ok: bool)
      requires assets.Valid()
      modifies this
      ensures Traced(assets) && trace[0] == State(old(OnDisk()), Start, [], [], {})
      ensures if ok then Last().pc.Finished? else Last().pc.Start?
      ensures WorkedFrom(old(operations)) ==> ok && Last().failedRemovals == {}
      ensures ok ==> |Last().failedRemovals| <= FailuresUpTo(answers, old(operations), operations)
      ensures ok && Last().failedRemovals == {} ==>
                forall before :: Truthful(old(OnDisk()), before) ==> data == assets.files && Truthful(OnDisk(), assets)
      ensures ok ==> forall before :: Truthful(old(OnDisk()), before) ==>
                HasAssets(data, assets) && data.Keys - assets.files.Keys <= Last().failedRemovals
    {
      hide Changes, UpToDate;
      ghost var start := State(OnDisk(), Start, [], [], {});
      log, trace := [OnDisk()], [start];
      assert DisksOf(trace) == log;
      if UpToDate(OnDisk(), assets) {
        UpToDateStep(start, assets);
        Think(assets, Go);
        ok := true;
      } else {
        ok := Synchronize(assets);
      }
      if ok {
        forall before | Truthful(start.disk, before)
          ensures HasAssets(data, assets) && data.Keys - assets.files.Keys <= Last().failedRemovals
          ensures Last().failedRemovals == {} ==> data == assets.files && Truthful(OnDisk(), assets)
        {
          CompletedRunSyncs(trace, assets, before, |trace| - 1);
        }
      }
    }

    /** The part of `InitAndroid` after the check of the saved index. */
    method Synchronize(assets: Assets) returns (ok: bool)
      requires assets.Valid() && Traced(assets) && !UpToDate(OnDisk(), assets)
      requires Last() == State(OnDisk(), Start, [], [], {})
      modifies this`operations, this`data, this`index, this`save, this`log, this`trace
      ensures Traced(assets) && trace[0] == old(trace[0]) && operations >= old(operations)
      ensures if ok then Last().pc.Finished? else Last().pc.Start?
      ensures WorkedFrom(old(operations)) ==> ok && Last().failedRemovals == {}
      ensures ok ==> |Last().failedRemovals| <= FailuresUpTo(answers, old(operations), operations)
    {
      hide Changes, Steps;
      ok := UnpackIndex(assets);
      if !ok {
        return;
      }
      var lines, saveLines := LinesOf(index), LinesOf(save);
      Think(assets, Go);
      ok := UnpackChanged(assets, lines, saveLines);
      if !ok {
        return;
      }
      Think(assets, Go);
      ghost var first := operations;
      RemoveStale(assets, lines, saveLines);
      ghost var last := operations;
      Think(assets, Go);
      ok := ReplaceSave(assets);
      FailuresMonotone(answers, old(operations), first, last, operations);
    }

    /** `UnpackAsset(INTEGRITY_INDEX)`. */
    method UnpackIndex(assets: Assets) returns (ok: bool)
      requires Traced(assets) && !UpToDate(OnDisk(), assets) && Last() == State(OnDisk(), Start, [], [], {})
      modifies this`operations, this`index, this`log, this`trace
      ensures Traced(assets) && trace[0] == old(trace[0]) && operations >= old(operations)
      ensures ok ==> Last() == State(OnDisk(), Reading, [], [], {}) && index == Some(Whole(assets.Index()))
      ensures !ok ==> Last().pc.Start?
      ensures WorkedFrom(old(operations)) ==> ok
    {
      hide Changes, Steps;
      ghost var before := log;
      ok := OpenIndex();
      if !ok {
        Did(assets, Cut, before);
        return;
      }
      Did(assets, Go, before);
      before := log;
      ok := WriteIndex(assets.Index());
      Did(assets, if ok then Go else Cut, before);
    }

    /** The first loop of `InitAndroid`. */
    method UnpackChanged(assets: Assets, lines: seq<Line>, saveLines: seq<Line>) returns (ok: bool)
      requires assets.Valid() && lines == assets.Index()
      requires Traced(assets) && Last() == State(OnDisk(), CheckAsset(1), lines, saveLines, {})
      modifies this`operations, this`data, this`log, this`trace
      ensures Traced(assets) && trace[0] == old(trace[0]) && operations >= old(operations)
      ensures ok ==> Last() == State(OnDisk(), CheckAsset(|lines|), lines, saveLines, {})
      ensures !ok ==> Last().pc.Start?
      ensures WorkedFrom(old(operations)) ==> ok
    {
      hide Changes, Steps, Assets.Valid;
      var i := 1;
      while i < |lines|
        invariant 1 <= i <= |lines| && operations >= old(operations)
        invariant Traced(assets) && trace[0] == old(trace[0])
        invariant Last() == State(OnDisk(), CheckAsset(i), lines, saveLines, {})
      {
        LinesOfIndex(assets, i);
        if Unchanged(saveLines, lines[i]) {
          Think(assets, Go);
        } else {
          ok := UnpackAsset(assets, lines, saveLines, i);
          if !ok {
            return;
          }
        }
        i := i + 1;
      }
      ok := true;
    }

    /** `UnpackAsset`, for an asset that is not the index. */
    method UnpackAsset(assets: Assets, lines: seq<Line>, saveLines: seq<Line>, i: nat) returns (ok: bool)
      requires i < |lines| && lines[i].filename in assets.files && !Unchanged(saveLines, lines[i])
      requires Traced(assets) && Last() == State(OnDisk(), CheckAsset(i), lines, saveLines, {})
      modifies this`operations, this`data, this`log, this`trace
      ensures Traced(assets) && trace[0] == old(trace[0]) && operations >= old(operations)
      ensures ok ==> Last() == State(OnDisk(), CheckAsset(i + 1), lines, saveLines, {})
      ensures !ok ==> Last().pc.Start?
      ensures WorkedFrom(old(operations)) ==> ok
    {
      hide Changes, Steps, Unchanged;
      var p := lines[i].filename;
      ghost var before := log;
      ok := OpenFile(p);
      if !ok {
        Did(assets, Cut, before);
        return;
      }
      Did(assets, Go, before);
      before := log;
      var written;
      ok, written := WriteFile(p, assets.files[p]);
      assert data == old(data)[p := assets.files[p][..written]];
      Did(assets, Write(written), before);
      if !ok {
        Think(assets, Cut);
      }
    }

    /** The second loop of `InitAndroid`. */
    method RemoveStale(assets: Assets, lines: seq<Line>, saveLines: seq<Line>)
      requires Traced(assets) && Last() == State(OnDisk(), CheckStale(1), lines, saveLines, {})
      modifies this`operations, this`data, this`log, this`trace
      ensures Traced(assets) && trace[0] == old(trace[0]) && operations >= old(operations)
      ensures Last().pc.CheckStale? && Last().pc.i >= |saveLines|
      ensures Last() == State(OnDisk(), Last().pc, lines, saveLines, Last().failedRemovals)
      ensures WorkedFrom(old(operations)) ==> Last().failedRemovals == {}
      ensures |saveLines| > 0 ==>
                && operations == old(operations) + StaleBefore(lines, saveLines, |saveLines|)
                && Last().failedRemovals == NotRemoved(lines, saveLines, |saveLines|, answers, old(operations))
      ensures |Last().failedRemovals| <= FailuresUpTo(answers, old(operations), operations)
    {
      hide Changes, Steps, NotRemoved, Lists, IsStale, Enabled, Apply, StaleBefore, FailuresUpTo, DisksOf;
      var i := 1;
      NothingStaleFirst(lines, saveLines, answers, operations);
      NoFailures(answers, operations);
      while i < |saveLines|
        invariant 1 <= i && operations >= old(operations) && (|saveLines| > 0 ==> i <= |saveLines|)
        invariant Traced(assets) && trace[0] == old(trace[0])
        invariant Last() == State(OnDisk(), CheckStale(i), lines, saveLines, Last().failedRemovals)
        invariant WorkedFrom(old(operations)) ==> Last().failedRemovals == {}
        invariant operations == old(operations) + StaleBefore(lines, saveLines, i)
        invariant Last().failedRemovals == NotRemoved(lines, saveLines, i, answers, old(operations))
        invariant |Last().failedRemovals| <= FailuresUpTo(answers, old(operations), operations)
        decreases |saveLines| - i
      {
        ghost var first, failed := operations, Last().failedRemovals;
        RemoveIfStale(assets, lines, saveLines, i);
        NotRemovedStep(lines, saveLines, i, answers, old(operations));
        StaleBeforeStep(lines, saveLines, i);
        FailuresStep(answers, old(operations), first, operations);
        OneMore(failed, saveLines[i].filename);
        i := i + 1;
      }
    }

    /** The body of that loop. */
    method RemoveIfStale(assets: Assets, lines: seq<Line>, saveLines: seq<Line>, i: nat)
      requires 1 <= i < |saveLines| && Traced(assets)
      requires Last() == State(OnDisk(), CheckStale(i), lines, saveLines, Last().failedRemovals)
      modifies this`operations, this`data, this`log, this`trace
      ensures Traced(assets) && trace[0] == old(trace[0])
      ensures operations == old(operations) + if IsStale(lines, saveLines, i) then 1 else 0
      ensures Last() == State(OnDisk(), CheckStale(i + 1), lines, saveLines, Last().failedRemovals)
      ensures Last().failedRemovals == old(Last().failedRemovals)
                + if IsStale(lines, saveLines, i) && answers(old(operations)).Fails? then {saveLines[i].filename} else {}
    {
      hide Changes, Steps, Lists;
      if FindLine(lines, saveLines[i].filename).None? {
        ghost var before := log;
        var ok := RemoveFile(saveLines[i].filename);
        Did(assets, if ok then Go else FailRemoval, before);
      } else {
        Think(assets, Go);
      }
    }

    /** The new index takes the place of the saved one. */
    method ReplaceSave(assets: Assets) returns (ok: bool)
      requires Traced(assets) && Last().pc.RemovingSave?
      modifies this`operations, this`index, this`save, this`log, this`trace
      ensures Traced(assets) && trace[0] == old(trace[0]) && operations >= old(operations)
      ensures if ok then Last().pc.Finished? else Last().pc.Start?
      ensures Last().failedRemovals == old(Last().failedRemovals)
      ensures WorkedFrom(old(operations)) ==> ok
    {
      hide Changes, Steps;
      ghost var before := log;
      ok := RemoveSave();
      if !ok {
        Did(assets, Cut, before);
        return;
      }
      Did(assets, Go, before);
      before := log;
      ok := RenameIndex();
      Did(assets, if ok then Go else Cut, before);
    }
  }

  lemma UpToDateStep(s: State, assets: Assets)
    requires s.pc.Start? && UpToDate(s.disk, assets)
    ensures Enabled(s, assets, Go) && Apply(s, assets, Go) == s.(pc := Finished)
  {
  }

  lemma StepsMore(trace: seq<State>, assets: Assets, step: Step)
    requires Steps(trace, assets) && Enabled(trace[|trace| - 1], assets, step)
    ensures Steps(trace + [Apply(trace[|trace| - 1], assets, step)], assets)
  {
    hide Enabled, Apply;
    assert Next(trace[|trace| - 1], Apply(trace[|trace| - 1], assets, step), assets);
  }
}

/**
  Updates that are cut off and then followed by yet another version of the app: for which versions the
  next completed run still leaves exactly its own assets.
 */
module AndroidUpdates {
  import opened Machine
  import opened AndroidSync

  // ---------------------------------------------------------------------------------------------
  // A run without interruptions and failures
  // ---------------------------------------------------------------------------------------------

  /** How far the program is. */
  function Phase(pc: Pc): nat {
    match pc
    case Start => 0
    case WritingIndex => 1
    case Reading => 2
    case CheckAsset(_) => 3
    case WritingAsset(_, _) => 3
    case CheckStale(_) => 4
    case RemovingSave => 5
    case RenamingIndex => 6
    case Finished => 7
  }

  /** How much of its loop is left. */
  function Left(s: State): nat {
    match s.pc
    case CheckAsset(i) => if i < |s.lines| then 2 * (|s.lines| - i) + 1 else 0
    case WritingAsset(i, _) => if i < |s.lines| then 2 * (|s.lines| - i) else 0
    case CheckStale(i) => if i < |s.saveLines| then |s.saveLines| - i else 0
    case _ => 0
  }

  /** The index and the lines are those of the version that runs. */
  ghost predicate Ready(s: State, assets: Assets) {
    && assets.Valid()
    && (s.pc.Start? ==> !UpToDate(s.disk, assets))
    && (2 <= Phase(s.pc) <= 6 ==> s.disk.index == Some(Whole(assets.Index())))
    && (3 <= Phase(s.pc) <= 4 ==> s.lines == assets.Index())
    && (s.pc.CheckAsset? || s.pc.CheckStale? ==> s.pc.i >= 1)
    && (s.pc.WritingAsset? ==> 1 <= s.pc.i < |s.lines| && s.pc.written == 0 && !Unchanged(s.saveLines, s.lines[s.pc.i]))
  }

  function Normal(s: State, assets: Assets): Step {
    if s.pc.WritingAsset? && s.pc.i < |s.lines| && s.lines[s.pc.i].filename in assets.files then
      Write(|assets.files[s.lines[s.pc.i].filename]|)
    else Go
  }

  /** The lines of the saved index as the run has read them or will read them. */
  function SavedLines(s: State): seq<Line> {
    if Phase(s.pc) <= 2 then LinesOf(s.disk.save) else s.saveLines
  }

  /** The run neither writes nor removes this file. */
  ghost predicate Spared(saved: seq<Line>, assets: Assets, p: Path) {
    && (forall j :: 1 <= j < |assets.Index()| && assets.Index()[j].filename == p ==> Unchanged(saved, assets.Index()[j]))
    && (p in assets.files || forall j :: 1 <= j < |saved| ==> saved[j].filename != p)
  }

  /** The rest of the run does neither. */
  ghost predicate SparedFrom(s: State, assets: Assets, p: Path) {
    Phase(s.pc) <= 4 ==> Spared(SavedLines(s), assets, p)
  }

  ghost predicate SameAt(data: map<Path, Bytes>, data': map<Path, Bytes>, p: Path) {
    (p in data <==> p in data') && (p in data ==> data[p] == data'[p])
  }

  lemma NormalIsEnabled(s: State, assets: Assets)
    requires Ready(s, assets) && !s.pc.Finished?
    ensures Enabled(s, assets, Normal(s, assets))
  {
    if s.pc.WritingAsset? {
      LinesOfIndex(assets, s.pc.i);
    }
  }

  lemma NormalAdvances(s: State, assets: Assets)
    requires Ready(s, assets) && !s.pc.Finished? && Enabled(s, assets, Normal(s, assets))
    ensures var t := Apply(s, assets, Normal(s, assets));
            && Ready(t, assets) && t.failedRemovals == s.failedRemovals
            && (Phase(t.pc) == Phase(s.pc) + 1 || (Phase(t.pc) == Phase(s.pc) && Left(t) < Left(s)))
            && (Phase(t.pc) <= 5 ==> t.disk.save == s.disk.save && SavedLines(t) == SavedLines(s))
            && (t.pc.RenamingIndex? ==> t.disk.save.None?)
  {
    if 3 <= Phase(s.pc) <= 4 && !s.pc.CheckStale? && s.pc.i < |s.lines| {
      LinesOfIndex(assets, s.pc.i);
    }
  }

  lemma NormalSpares(s: State, assets: Assets, p: Path)
    requires Ready(s, assets) && !s.pc.Finished? && Enabled(s, assets, Normal(s, assets))
    requires SparedFrom(s, assets, p)
    ensures SameAt(s.disk.data, Apply(s, assets, Normal(s, assets)).disk.data, p)
  {
    hide UpToDate;
    if 3 <= Phase(s.pc) <= 4 && !s.pc.CheckStale? && s.pc.i < |s.lines| {
      LinesOfIndex(assets, s.pc.i);
    }
    if s.pc.CheckStale? && p in assets.files {
      FilesOfIndex(assets, p);
    }
  }

  lemma StepsCons(s: State, rest: seq<State>, assets: Assets, step: Step)
    requires Enabled(s, assets, step) && Steps(rest, assets) && rest[0] == Apply(s, assets, step)
    ensures Steps([s] + rest, assets) && ([s] + rest)[|rest|] == rest[|rest| - 1]
  {
    hide Enabled, Apply;
    var trace := [s] + rest;
    assert Next(s, rest[0], assets);
    forall i, j | 0 <= i < j < |trace| && j == i + 1
      ensures Next(trace[i], trace[j], assets)
    {
      assert i > 0 ==> Next(rest[i - 1], rest[j - 1], assets);
    }
  }

  /** From any point of the program a run reaches any later point, with what it spares unchanged. */
  lemma {:induction false} RunTo(s: State, assets: Assets, goal: Pc) returns (trace: seq<State>)
    requires Ready(s, assets) && goal in {RemovingSave, RenamingIndex, Finished} && Phase(s.pc) <= Phase(goal)
    ensures Steps(trace, assets) && trace[0] == s && (s.pc == goal ==> trace == [s])
    ensures var last := trace[|trace| - 1];
            && last.pc == goal && last.failedRemovals == s.failedRemovals
            && (goal.RemovingSave? ==> last.disk.save == s.disk.save)
            && (goal.RenamingIndex? && Phase(s.pc) < 6 ==> last.disk.save.None?)
            && (forall p :: SparedFrom(s, assets, p) ==> SameAt(s.disk.data, last.disk.data, p))
    decreases 7 - Phase(s.pc), Left(s)
  {
    hide Ready, Enabled, Apply, Spared, UpToDate, Left, SavedLines, Normal;
    if s.pc == goal {
      trace := [s];
    } else {
      NormalIsEnabled(s, assets);
      NormalAdvances(s, assets);
      var t := Apply(s, assets, Normal(s, assets));
      var rest := RunTo(t, assets, goal);
      StepsCons(s, rest, assets, Normal(s, assets));
      trace := [s] + rest;
      forall p | SparedFrom(s, assets, p)
        ensures SameAt(s.disk.data, trace[|trace| - 1].disk.data, p)
      {
        NormalSpares(s, assets, p);
        assert SparedFrom(t, assets, p);
        assert SameAt(t.disk.data, rest[|rest| - 1].disk.data, p);
      }
    }
  }

  // ---------------------------------------------------------------------------------------------
  // When the next version repairs an update that was cut off
  // ---------------------------------------------------------------------------------------------

  /**
    Version `v` is interrupted while it updates from version `before`; then version `a` runs, interrupted
    any number of times, and completes, and no stale file fails to be removed.
   */
  ghost predicate Updates(first: seq<State>, second: seq<State>, before: Assets, v: Assets, a: Assets) {
    && Runs(first, v, before) && first[|first| - 1].pc.Start?
    && Steps(second, a) && second[0] == first[|first| - 1]
    && second[|second| - 1].pc.Finished? && second[|second| - 1].failedRemovals == {}
  }

  /** However that happens, the data folder is exactly the assets of the last version. */
  ghost predicate Repairs(before: Assets, v: Assets, a: Assets) {
    forall first: seq<State>, second: seq<State> :: Updates(first, second, before, v, a) ==> second[|second| - 1].disk.data == a.files
  }

  /**
    A condition on the versions alone: what the new version shares with the old one, the interrupted
    one shares as well, and it has no files that the new one lacks. Or it changes nothing at all.
   */
  ghost predicate Compatible(before: Assets, v: Assets, a: Assets) {
    || v.Index() == before.Index()
    || ((forall p :: p in a.files && p in before.files && a.files[p] == before.files[p] ==>
           p in v.files && v.files[p] == a.files[p])
        && v.files.Keys <= a.files.Keys)
  }

  lemma {:induction false} FailedRemovalsGrow(trace: seq<State>, assets: Assets, i: nat)
    requires Steps(trace, assets) && i < |trace|
    ensures trace[i].failedRemovals <= trace[|trace| - 1].failedRemovals
    decreases |trace| - i
  {
    if i + 1 < |trace| {
      assert Next(trace[i], trace[i + 1], assets);
      FailedRemovalsGrow(trace, assets, i + 1);
    }
  }

  lemma SameIndexSameFiles(x: Assets, y: Assets)
    requires x.Valid() && y.Valid() && x.Index() == y.Index()
    ensures x.files == y.files
  {
    StartInv(State(Disk(x.files, None, Some(Whole(x.Index()))), Start, [], [], {}), y, x);
    assert x.files.Keys == y.files.Keys;
  }

  /** A version whose index is the saved one does not touch anything. */
  lemma {:induction false} NothingToDo(trace: seq<State>, v: Assets, i: nat)
    requires Steps(trace, v) && trace[0].pc.Start? && trace[0].disk.save == Some(Whole(v.Index())) && i < |trace|
    ensures trace[i].disk == trace[0].disk && (trace[i].pc.Start? || trace[i].pc.Finished?)
  {
    if i > 0 {
      NothingToDo(trace, v, i - 1);
      assert Next(trace[i - 1], trace[i], v);
    }
  }

  /** Where the interrupted version left off is a state the next version can start from. */
  lemma NextVersionStarts(s: State, before: Assets, v: Assets, a: Assets) returns (from: Assets)
    requires Inv(s, v, before) && s.pc.Start? && s.failedRemovals == {} && a.Valid() && Compatible(before, v, a)
    requires v.Index() == before.Index() && s.disk.save.None? ==> v.files == map[]
    ensures Inv(s, a, from)
  {
    if v.Index() == a.Index() {
      SameIndexSameFiles(v, a);
    }
    if before.Index() == a.Index() {
      SameIndexSameFiles(before, a);
    }
    if v.Index() == before.Index() {
      SameIndexSameFiles(v, before);
      from := v;
    } else {
      from := if s.disk.save == Some(Whole(before.Index())) then before else v;
    }
  }

  lemma CompatibleRepairs(before: Assets, v: Assets, a: Assets, first: seq<State>, second: seq<State>)
    requires before.Valid() && v.Valid() && a.Valid() && Compatible(before, v, a)
    requires Updates(first, second, before, v, a)
    ensures second[|second| - 1].disk.data == a.files
  {
    hide Compatible, Inv;
    FailedRemovalsGrow(second, a, 0);
    RunsKeepInv(first, v, before, |first| - 1);
    if v.Index() == before.Index() {
      SameIndexSameFiles(v, before);
      if before.files != map[] {
        NothingToDo(first, v, |first| - 1);
      }
    }
    var from := NextVersionStarts(second[0], before, v, a);
    StepsKeepInv(second, a, from, |second| - 1);
    FinishedInSync(second[|second| - 1], a, from);
  }

  lemma StepsSnoc(trace: seq<State>, assets: Assets, step: Step)
    requires Steps(trace, assets) && Enabled(trace[|trace| - 1], assets, step)
    ensures Steps(trace + [Apply(trace[|trace| - 1], assets, step)], assets)
  {
    hide Enabled, Apply;
    assert Next(trace[|trace| - 1], Apply(trace[|trace| - 1], assets, step), assets);
  }

  /** The disk of `before`, as its last completed run has left it. */
  function Installed(before: Assets): State {
    State(Disk(before.files, None, Some(Whole(before.Index()))), Start, [], [], {})
  }

  lemma NotUpToDate(s: State, before: Assets, assets: Assets)
    requires s.disk.save == Some(Whole(before.Index()))
    ensures UpToDate(s.disk, assets) <==> before.Index() == assets.Index()
  {
    assert UpToDate(s.disk, assets) <==> IndexDigest(before.entries) == IndexDigest(assets.entries);
  }

  /** Version `v` unpacks without an interruption, up to that place. */
  lemma UnpacksUpTo(before: Assets, v: Assets, goal: Pc) returns (trace: seq<State>)
    requires before.Valid() && v.Valid() && before.Index() != v.Index() && goal in {RemovingSave, RenamingIndex}
    ensures Runs(trace, v, before) && trace[0] == Installed(before)
    ensures var last := trace[|trace| - 1];
            && last.pc == goal && last.failedRemovals == {}
            && last.disk.data == v.files && last.disk.index == Some(Whole(v.Index()))
            && last.disk.save == if goal.RemovingSave? then Some(Whole(before.Index())) else None
  {
    hide PcInv, DiskInv;
    var s := Installed(before);
    NotUpToDate(s, before, v);
    trace := RunTo(s, v, goal);
    assert Runs(trace, v, before);
    RunsKeepInv(trace, v, before, |trace| - 1);
    UnpackedWhenDone(trace[|trace| - 1], v, before);
  }

  /** The update to `v` is interrupted at that place, before or after the saved index is given up. */
  lemma InterruptedAt(before: Assets, v: Assets, goal: Pc) returns (first: seq<State>)
    requires before.Valid() && v.Valid() && before.Index() != v.Index() && goal in {RemovingSave, RenamingIndex}
    ensures Runs(first, v, before) && first[0] == Installed(before)
    ensures var last := first[|first| - 1];
            && last.pc.Start? && last.failedRemovals == {} && last.disk.data == v.files
            && last.disk.save == if goal.RemovingSave? then Some(Whole(before.Index())) else None
  {
    first := UnpacksUpTo(before, v, goal);
    StepsSnoc(first, v, Cut);
    first := first + [Apply(first[|first| - 1], v, Cut)];
  }

  lemma UnpackedWhenDone(s: State, assets: Assets, before: Assets)
    requires Inv(s, assets, before) && (s.pc.RemovingSave? || s.pc.RenamingIndex?) && s.failedRemovals == {}
    ensures s.disk.data == assets.files && s.disk.index == Some(Whole(assets.Index()))
  {
    assert s.disk.data.Keys == assets.files.Keys;
  }

  /** The next version completes without touching a file that it takes for unchanged, or does not know of. */
  lemma CompletesAround(s: State, a: Assets, p: Path) returns (second: seq<State>)
    requires a.Valid() && s.pc.Start? && s.failedRemovals == {} && Spared(LinesOf(s.disk.save), a, p)
    ensures Steps(second, a) && second[0] == s
    ensures var last := second[|second| - 1];
            last.pc.Finished? && last.failedRemovals == {} && SameAt(s.disk.data, last.disk.data, p)
  {
    hide Spared;
    if UpToDate(s.disk, a) {
      StepsSnoc([s], a, Go);
      second := [s, Apply(s, a, Go)];
      assert [s] + [Apply(s, a, Go)] == second;
    } else {
      second := RunTo(s, a, Finished);
    }
  }

  lemma SharedFileIsSpared(before: Assets, a: Assets, p: Path)
    requires before.Valid() && a.Valid() && p in a.files && p in before.files && a.files[p] == before.files[p]
    ensures Spared(before.Index(), a, p)
  {
    forall j | 1 <= j < |a.Index()| && a.Index()[j].filename == p
      ensures Unchanged(before.Index(), a.Index()[j])
    {
      LinesOfIndex(a, j);
      UnchangedIffSame(before, a, a.Index()[j]);
    }
  }

  lemma UnknownFileIsSpared(a: Assets, p: Path)
    requires a.Valid() && p !in a.files
    ensures Spared([], a, p)
  {
    forall j | 1 <= j < |a.Index()|
      ensures a.Index()[j].filename != p
    {
      LinesOfIndex(a, j);
    }
  }

  /** Where the condition fails, an update is interrupted and damage or a stale file stays behind. */
  lemma IncompatibleFails(before: Assets, v: Assets, a: Assets) returns (first: seq<State>, second: seq<State>)
    requires before.Valid() && v.Valid() && a.Valid() && !Compatible(before, v, a)
    ensures Updates(first, second, before, v, a) && second[|second| - 1].disk.data != a.files
  {
    hide Spared;
    var p: Path;
    if p' :| p' in a.files && p' in before.files && a.files[p'] == before.files[p'] && !(p' in v.files && v.files[p'] == a.files[p']) {
      p := p';
      first := InterruptedAt(before, v, RemovingSave);
      SharedFileIsSpared(before, a, p);
    } else {
      p :| p in v.files && p !in a.files;
      first := InterruptedAt(before, v, RenamingIndex);
      UnknownFileIsSpared(a, p);
    }
    second := CompletesAround(first[|first| - 1], a, p);
  }

  /** An interrupted update is repaired by the next version, in every case, exactly if the versions are compatible. */
  lemma RepairsIffCompatible(before: Assets, v: Assets, a: Assets)
    requires before.Valid() && v.Valid() && a.Valid()
    ensures Repairs(before, v, a) <==> Compatible(before, v, a)
  {
    hide Compatible;
    if Compatible(before, v, a) {
      forall first: seq<State>, second: seq<State> | Updates(first, second, before, v, a)
        ensures second[|second| - 1].disk.data == a.files
      {
        CompatibleRepairs(before, v, a, first, second);
      }
    } else {
      var first, second := IncompatibleFails(before, v, a);
    }
  }

  /** The interrupted version repairs itself; the old one does exactly if the two have the same files. */
  lemma SameOrOldVersionNext(before: Assets, v: Assets)
    requires before.Valid() && v.Valid()
    ensures Repairs(before, v, v)
    ensures Repairs(before, v, before) <==> v.files == before.files
  {
    hide Repairs;
    RepairsIffCompatible(before, v, v);
    RepairsIffCompatible(before, v, before);
    if v.Index() == before.Index() {
      SameIndexSameFiles(v, before);
    }
    if Compatible(before, v, before) {
      assert v.files.Keys == before.files.Keys;
    }
  }

  const F := "data/f"

  function SingleFile(content: Bytes): Assets {
    Assets(map[F := content], [Line(F, FileDigest(content))])
  }

  lemma SingleFileValid(content: Bytes)
    ensures SingleFile(content).Valid()
  {
    assert SingleFile(content).entries[0].filename == F;
  }

  /**
    An update of one file is cut off and the old version of the app is started again: its index is still
    the saved one, and the damage goes unnoticed.
   */
  lemma CutUpdateThenOldVersion() returns (old_: Assets, new_: Assets, first: seq<State>, second: seq<State>)
    ensures old_.Valid() && new_.Valid() && Updates(first, second, old_, new_, old_)
    ensures second[|second| - 1].disk.data != old_.files
  {
    hide Updates;
    old_, new_ := SingleFile([1]), SingleFile([2]);
    SingleFileValid([1]);
    SingleFileValid([2]);
    assert new_.files[F] != old_.files[F];
    assert !Compatible(old_, new_, old_) by {
      assert new_.Index()[1] != old_.Index()[1];
    }
    first, second := IncompatibleFails(old_, new_, old_);
  }
}

/**
  The unpacking of game assets on Android: a program that may be cut off at any moment and started
  again, over an abstract disk. Whenever a run completes, the data folder is exactly the asset set.

  Hashes are symbolic: `FileDigest` and `IndexDigest` are free constructors, so that equal digests
  mean equal contents, which is what the source relies on SHA-256 for.
 */
module AndroidSync {
  import opened Machine

  type Path = string
  type Bytes = seq<byte>

  datatype Digest = FileDigest(content: Bytes) | IndexDigest(entries: seq<Line>)

  /** A line of an integrity index; the first line of an index has no filename. */
  datatype Line = Line(filename: Path, digest: Digest)

  /** An index file, whole or cut off while it was being written. */
  datatype IndexFile = Whole(lines: seq<Line>) | Torn

  /** What comes with the app: the asset files and the index that lists them. */
  datatype Assets = Assets(files: map<Path, Bytes>, entries: seq<Line>)
  {
    function Index(): seq<Line> {
      [Line("", IndexDigest(entries))] + entries
    }

    /** What the index generator guarantees: every file is listed once, with its hash. */
    predicate Valid() {
      && DistinctNames(entries)
      && (forall i :: 0 <= i < |entries| ==>
            && entries[i].filename != "" && entries[i].filename in files
            && entries[i].digest == FileDigest(files[entries[i].filename]))
      && (forall p :: p in files ==> Lists(entries, p))
    }
  }

  predicate DistinctNames(lines: seq<Line>) {
    forall i, j :: 0 <= i < j < |lines| ==> lines[i].filename != lines[j].filename
  }

  predicate Lists(lines: seq<Line>, p: Path) {
    exists i :: 0 <= i < |lines| && lines[i].filename == p
  }

  /** The external storage: the data folder, `integrity.txt` and `integrity_save.txt`. */
  datatype Disk = Disk(data: map<Path, Bytes>, index: Option<IndexFile>, save: Option<IndexFile>)

  // ---------------------------------------------------------------------------------------------
  // The program, step by step
  // ---------------------------------------------------------------------------------------------

  datatype Pc =
    | Start
    | WritingIndex                          // `integrity.txt` is open, some of it written
    | Reading                               // about to read both index files
    | CheckAsset(i: nat)                    // at the top of the first loop
    | WritingAsset(i: nat, written: nat)    // the asset's file is open, so many bytes written
    | CheckStale(i: nat)                    // at the top of the second loop
    | RemovingSave
    | RenamingIndex
    | Finished

  /** The disk outlives a run of the program; its position and the lines it has read do not. */
  datatype State = State(disk: Disk, pc: Pc, lines: seq<Line>, saveLines: seq<Line>,
                         failedRemovals: set<Path>)   // history: stale files that could not be removed

  /** `EqualIntegrityFiles`: the hash in the first line of the saved index is that of the app's index. */
  predicate UpToDate(disk: Disk, assets: Assets) {
    disk.save.Some? && disk.save.value.Whole? && disk.save.value.lines != []
    && disk.save.value.lines[0].digest == assets.Index()[0].digest
  }

  /** `ReadIntegrityFile`; nothing for a file that is missing. A torn one is never read. */
  function LinesOf(file: Option<IndexFile>): seq<Line> {
    if file.Some? && file.value.Whole? then file.value.lines else []
  }

  /** `std::find_if` by filename. */
  function FindLine(lines: seq<Line>, p: Path): (found: Option<Line>)
    ensures found.Some? <==> Lists(lines, p)
    ensures found.Some? ==> found.value.filename == p && found.value in lines
  {
    if lines == [] then None
    else if lines[0].filename == p then Some(lines[0])
    else
      assert forall i :: 0 < i < |lines| ==> lines[i] == lines[1..][i - 1];
      FindLine(lines[1..], p)
  }

  /** The asset is unchanged from the last unpacking, as far as the saved index knows. */
  predicate Unchanged(saveLines: seq<Line>, line: Line) {
    var saved := FindLine(saveLines, line.filename);
    saved.Some? && saved.value.digest == line.digest
  }

  datatype Step = Go | Write(n: nat) | FailRemoval | Cut

  predicate Enabled(s: State, assets: Assets, step: Step) {
    match step
    case Go =>
      && !s.pc.Finished? && !s.pc.WritingAsset?
      && (s.pc.Reading? ==> s.disk.index.Some? && s.disk.index.value.Whole?)
    case Write(n) => s.pc.WritingAsset? && s.pc.i < |s.lines| && s.lines[s.pc.i].filename in assets.files
                     && s.pc.written <= n <= |assets.files[s.lines[s.pc.i].filename]|
    case FailRemoval => s.pc.CheckStale? && s.pc.i < |s.saveLines| && !Lists(s.lines, s.saveLines[s.pc.i].filename)
    case Cut => true
  }

  function WithData(s: State, data: map<Path, Bytes>, pc: Pc): State {
    s.(disk := s.disk.(data := data), pc := pc)
  }

  /**
    One step. `Write(n)` has brought the file being written to its first `n` bytes; `Cut` ends the run
    wherever it is, for a crash as well as for an error return, and starts the next one.
   */
  function Apply(s: State, assets: Assets, step: Step): State
    requires Enabled(s, assets, step)
  {
    match step
    case Cut => s.(pc := Start, lines := [], saveLines := [])
    case Write(n) =>
      var p := s.lines[s.pc.i].filename;
      WithData(s, s.disk.data[p := assets.files[p][..n]],
               if n == |assets.files[p]| then CheckAsset(s.pc.i + 1) else WritingAsset(s.pc.i, n))
    case FailRemoval =>
      s.(pc := CheckStale(s.pc.i + 1), failedRemovals := s.failedRemovals + {s.saveLines[s.pc.i].filename})
    case Go =>
      match s.pc
      case Start =>
        if UpToDate(s.disk, assets) then s.(pc := Finished)
        else s.(disk := s.disk.(index := Some(Torn)), pc := WritingIndex)
      case WritingIndex => s.(disk := s.disk.(index := Some(Whole(assets.Index()))), pc := Reading)
      case Reading => s.(lines := LinesOf(s.disk.index), saveLines := LinesOf(s.disk.save), pc := CheckAsset(1))
      case CheckAsset(i) =>
        if i >= |s.lines| then s.(pc := CheckStale(1))
        else if Unchanged(s.saveLines, s.lines[i]) then s.(pc := CheckAsset(i + 1))
        else WithData(s, s.disk.data[s.lines[i].filename := []], WritingAsset(i, 0))
      case CheckStale(i) =>
        if i >= |s.saveLines| then s.(pc := RemovingSave)
        else if Lists(s.lines, s.saveLines[i].filename) then s.(pc := CheckStale(i + 1))
        else WithData(s, s.disk.data - {s.saveLines[i].filename}, CheckStale(i + 1))
      case RemovingSave => s.(disk := s.disk.(save := None), pc := RenamingIndex)
      case RenamingIndex => s.(disk := s.disk.(save := s.disk.index, index := None), pc := Finished)
      case _ => s
  }

  ghost predicate Next(s: State, t: State, assets: Assets) {
    exists step :: Enabled(s, assets, step) && t == Apply(s, assets, step)
  }

  /** Any number of consecutive steps with one version of the app. */
  ghost predicate Steps(trace: seq<State>, assets: Assets) {
    && trace != []
    && forall i, j {:trigger Next(trace[i], trace[j], assets)} :: 0 <= i < j < |trace| && j == i + 1 ==> Next(trace[i], trace[j], assets)
  }

  /** A saved index that describes the data folder truthfully; without one the folder is empty. */
  ghost predicate Truthful(disk: Disk, before: Assets) {
    && before.Valid()
    && disk.data == before.files
    && (disk.save == Some(Whole(before.Index())) || (disk.save.None? && before.files == map[]))
  }

  /** Any number of runs, cut off anywhere, with the same version of the app. */
  ghost predicate Runs(trace: seq<State>, assets: Assets, before: Assets) {
    Steps(trace, assets) && trace[0].pc.Start? && trace[0].failedRemovals == {} && Truthful(trace[0].disk, before)
  }

  // ---------------------------------------------------------------------------------------------
  // The invariant
  // ---------------------------------------------------------------------------------------------

  /** All assets are there as they should be. */
  ghost predicate HasAssets(data: map<Path, Bytes>, assets: Assets) {
    forall p :: p in assets.files ==> p in data && data[p] == assets.files[p]
  }

  /** What the old index says is the same in the new one has not been touched. */
  ghost predicate KeepsUnchanged(data: map<Path, Bytes>, assets: Assets, before: Assets) {
    forall p :: p in assets.files && p in before.files && before.files[p] == assets.files[p] ==>
      p in data && data[p] == assets.files[p]
  }

  /** What holds of the disk at any moment, and so wherever a run is cut off. */
  ghost predicate DiskInv(s: State, assets: Assets, before: Assets) {
    match s.disk.save
    case None => s.disk.data.Keys <= assets.files.Keys + s.failedRemovals
    case Some(Torn) => false
    case Some(Whole(lines)) =>
      if lines == assets.Index() then
        HasAssets(s.disk.data, assets) && s.disk.data.Keys <= assets.files.Keys + s.failedRemovals
      else
        && lines == before.Index()
        && KeepsUnchanged(s.disk.data, assets, before)
        && s.disk.data.Keys <= assets.files.Keys + before.files.Keys
  }

  ghost predicate HasRead(s: State, assets: Assets) {
    && s.disk.index == Some(Whole(assets.Index())) && s.lines == assets.Index()
    && s.saveLines == LinesOf(s.disk.save) && !UpToDate(s.disk, assets)
  }

  ghost predicate UnpackedUpTo(s: State, assets: Assets, n: nat) {
    forall j :: 1 <= j < n && j < |s.lines| ==>
      var p := s.lines[j].filename;
      p in s.disk.data && p in assets.files && s.disk.data[p] == assets.files[p]
  }

  /** The stale files of the old index before line `n` are gone. */
  ghost predicate RemovedUpTo(s: State, assets: Assets, n: nat) {
    forall j :: 1 <= j < n && j < |s.saveLines| && s.saveLines[j].filename in s.disk.data ==>
      s.saveLines[j].filename in assets.files || s.saveLines[j].filename in s.failedRemovals
  }

  ghost predicate InSync(s: State, assets: Assets) {
    HasAssets(s.disk.data, assets) && s.disk.data.Keys <= assets.files.Keys + s.failedRemovals
  }

  ghost predicate PcInv(s: State, assets: Assets) {
    match s.pc
    case Start => true
    case WritingIndex => !UpToDate(s.disk, assets)
    case Reading => s.disk.index == Some(Whole(assets.Index())) && !UpToDate(s.disk, assets)
    case CheckAsset(i) => HasRead(s, assets) && 1 <= i <= |s.lines| && UnpackedUpTo(s, assets, i)
    case WritingAsset(i, _) =>
      && HasRead(s, assets) && 1 <= i < |s.lines| && UnpackedUpTo(s, assets, i)
      && !Unchanged(s.saveLines, s.lines[i])
    case CheckStale(i) => HasRead(s, assets) && 1 <= i && HasAssets(s.disk.data, assets) && RemovedUpTo(s, assets, i)
    case RemovingSave => s.disk.index == Some(Whole(assets.Index())) && InSync(s, assets)
    case RenamingIndex => s.disk.index == Some(Whole(assets.Index())) && InSync(s, assets)
    case Finished => s.disk.save == Some(Whole(assets.Index()))
  }

  ghost predicate Inv(s: State, assets: Assets, before: Assets) {
    assets.Valid() && before.Valid() && DiskInv(s, assets, before) && PcInv(s, assets)
  }

  lemma FilesOfIndex(assets: Assets, p: Path)
    requires assets.Valid() && p in assets.files
    ensures exists j :: 1 <= j < |assets.Index()| && assets.Index()[j] == Line(p, FileDigest(assets.files[p]))
  {
    assert Lists(assets.entries, p);
    var i :| 0 <= i < |assets.entries| && assets.entries[i].filename == p;
    assert assets.Index()[i + 1] == assets.entries[i];
  }

  lemma LinesOfIndex(assets: Assets, j: nat)
    requires assets.Valid() && 1 <= j < |assets.Index()|
    ensures var line := assets.Index()[j];
            line.filename != "" && line.filename in assets.files && line.digest == FileDigest(assets.files[line.filename])
    ensures forall k :: 0 <= k < |assets.Index()| && k != j ==> assets.Index()[k].filename != assets.Index()[j].filename
  {
    var entry := assets.entries[j - 1];
    assert assets.Index()[j] == entry;
    forall k | 0 <= k < |assets.Index()| && k != j
      ensures assets.Index()[k].filename != entry.filename
    {
      if k > 0 {
        assert assets.Index()[k] == assets.entries[k - 1];
      }
    }
  }

  lemma ListedIffFile(assets: Assets, p: Path)
    requires assets.Valid() && p != ""
    ensures Lists(assets.Index(), p) <==> p in assets.files
  {
    if p in assets.files {
      FilesOfIndex(assets, p);
    }
    if j :| 0 <= j < |assets.Index()| && assets.Index()[j].filename == p {
      LinesOfIndex(assets, j);
    }
  }

  /** The check by hash against a truthful saved index finds exactly the files that are the same. */
  lemma UnchangedIffSame(before: Assets, assets: Assets, line: Line)
    requires before.Valid() && assets.Valid() && line.filename != "" && line.filename in assets.files
    requires line.digest == FileDigest(assets.files[line.filename])
    ensures Unchanged(before.Index(), line) <==>
              line.filename in before.files && before.files[line.filename] == assets.files[line.filename]
  {
    var p, lines := line.filename, before.Index();
    ListedIffFile(before, p);
    if p in before.files {
      var found := FindLine(lines, p).value;
      var j :| 0 <= j < |lines| && lines[j] == found;
      LinesOfIndex(before, j);
    }
  }

  lemma StartInv(s: State, assets: Assets, before: Assets)
    requires assets.Valid() && s.pc.Start? && Truthful(s.disk, before) && s.failedRemovals == {}
    ensures Inv(s, assets, before)
  {
    if before.Index() == assets.Index() {
      assert before.entries == before.Index()[1..] == assets.Index()[1..] == assets.entries;
      forall p | p in assets.files
        ensures p in before.files && before.files[p] == assets.files[p]
      {
        FilesOfIndex(assets, p);
        var j :| 1 <= j < |assets.Index()| && assets.Index()[j] == Line(p, FileDigest(assets.files[p]));
        LinesOfIndex(before, j);
      }
      forall p | p in before.files
        ensures p in assets.files
      {
        FilesOfIndex(before, p);
        var j :| 1 <= j < |before.Index()| && before.Index()[j] == Line(p, FileDigest(before.files[p]));
        LinesOfIndex(assets, j);
      }
    }
  }

  /** Writing to the file of a changed asset. */
  lemma WriteKeepsDisk(s: State, assets: Assets, before: Assets, i: nat, content: Bytes)
    requires Inv(s, assets, before) && HasRead(s, assets) && 1 <= i < |s.lines| && !Unchanged(s.saveLines, s.lines[i])
    ensures DiskInv(WithData(s, s.disk.data[s.lines[i].filename := content], s.pc), assets, before)
    ensures forall n: nat :: n <= i && UnpackedUpTo(s, assets, n) ==>
              UnpackedUpTo(WithData(s, s.disk.data[s.lines[i].filename := content], s.pc), assets, n)
  {
    LinesOfIndex(assets, i);
    if s.disk.save.Some? {
      UnchangedIffSame(before, assets, s.lines[i]);
    }
  }

  lemma StartStep(s: State, assets: Assets, before: Assets)
    requires Inv(s, assets, before) && s.pc.Start?
    ensures Inv(Apply(s, assets, Go), assets, before)
  {
    if UpToDate(s.disk, assets) {
      var lines := s.disk.save.value.lines;
      assert lines == before.Index() ==> lines[0].digest == IndexDigest(before.entries);
    }
  }

  lemma CheckAssetStep(s: State, assets: Assets, before: Assets)
    requires Inv(s, assets, before) && s.pc.CheckAsset?
    ensures Inv(Apply(s, assets, Go), assets, before)
  {
    hide Unchanged, KeepsUnchanged, UpToDate, Assets.Valid;
    var i := s.pc.i;
    if i >= |s.lines| {
      AllUnpacked(s, assets);
    } else if Unchanged(s.saveLines, s.lines[i]) {
      AssetIsUnchanged(s, assets, before, i);
    } else {
      WriteKeepsDisk(s, assets, before, i, []);
      SameSave(s.disk, s.disk.data[s.lines[i].filename := []], assets);
    }
  }

  /** What the saved index takes for unchanged is in place. */
  lemma AssetIsUnchanged(s: State, assets: Assets, before: Assets, i: nat)
    requires Inv(s, assets, before) && HasRead(s, assets) && 1 <= i < |s.lines| && Unchanged(s.saveLines, s.lines[i])
    ensures var p := s.lines[i].filename; p in s.disk.data && p in assets.files && s.disk.data[p] == assets.files[p]
  {
    LinesOfIndex(assets, i);
    UnchangedIffSame(before, assets, s.lines[i]);
  }

  /** Whether the saved index is up to date does not depend on the data. */
  lemma SameSave(disk: Disk, data: map<Path, Bytes>, assets: Assets)
    ensures UpToDate(disk.(data := data), assets) <==> UpToDate(disk, assets)
  {
  }

  lemma AllUnpacked(s: State, assets: Assets)
    requires assets.Valid() && s.lines == assets.Index() && UnpackedUpTo(s, assets, |s.lines|)
    ensures HasAssets(s.disk.data, assets)
  {
    forall p | p in assets.files
      ensures p in s.disk.data && s.disk.data[p] == assets.files[p]
    {
      FilesOfIndex(assets, p);
    }
  }

  lemma WriteStep(s: State, assets: Assets, before: Assets, n: nat)
    requires Inv(s, assets, before) && Enabled(s, assets, Write(n))
    ensures Inv(Apply(s, assets, Write(n)), assets, before)
  {
    var i := s.pc.i;
    var p := s.lines[i].filename;
    WriteKeepsDisk(s, assets, before, i, assets.files[p][..n]);
    LinesOfIndex(assets, i);
    assert assets.files[p][..|assets.files[p]|] == assets.files[p];
  }

  lemma StaleFileIsNoAsset(s: State, assets: Assets, before: Assets, i: nat)
    requires Inv(s, assets, before) && HasRead(s, assets) && 1 <= i < |s.saveLines|
    ensures s.disk.save == Some(Whole(before.Index())) && before.Index() != assets.Index()
    ensures Lists(s.lines, s.saveLines[i].filename) <==> s.saveLines[i].filename in assets.files
  {
    LinesOfIndex(before, i);
    ListedIffFile(assets, s.saveLines[i].filename);
  }

  lemma StaleLineStep(s: State, assets: Assets, before: Assets, step: Step)
    requires Inv(s, assets, before) && s.pc.CheckStale? && (step.Go? || step.FailRemoval?) && Enabled(s, assets, step)
    requires s.pc.i < |s.saveLines|
    ensures Inv(Apply(s, assets, step), assets, before)
  {
    hide UpToDate, Lists, Assets.Valid;
    StaleFileIsNoAsset(s, assets, before, s.pc.i);
    SameSave(s.disk, s.disk.data - {s.saveLines[s.pc.i].filename}, assets);
  }

  lemma StaleLinesDone(s: State, assets: Assets, before: Assets)
    requires Inv(s, assets, before) && s.pc.CheckStale? && Enabled(s, assets, Go)
    requires s.pc.i >= |s.saveLines|
    ensures Inv(Apply(s, assets, Go), assets, before)
  {
    if s.disk.save.Some? {
      forall p | p in s.disk.data.Keys
        ensures p in assets.files.Keys + s.failedRemovals
      {
        if p in before.files {
          FilesOfIndex(before, p);
        }
      }
    }
  }

  lemma InvStep(s: State, assets: Assets, before: Assets, step: Step)
    requires Inv(s, assets, before) && Enabled(s, assets, step)
    ensures Inv(Apply(s, assets, step), assets, before)
  {
    match step
    case Cut =>
    case Write(n) => WriteStep(s, assets, before, n);
    case FailRemoval => StaleLineStep(s, assets, before, step);
    case Go =>
      match s.pc
      case Start => StartStep(s, assets, before);
      case CheckAsset(_) => CheckAssetStep(s, assets, before);
      case CheckStale(i) =>
        if i < |s.saveLines| {
          StaleLineStep(s, assets, before, step);
        } else {
          StaleLinesDone(s, assets, before);
        }
      case _ => PlainStep(s, assets, before);
  }

  lemma PlainStep(s: State, assets: Assets, before: Assets)
    requires Inv(s, assets, before) && Enabled(s, assets, Go)
    requires !s.pc.Start? && !s.pc.CheckAsset? && !s.pc.CheckStale?
    ensures Inv(Apply(s, assets, Go), assets, before)
  {
  }

  lemma {:induction false} StepsKeepInv(trace: seq<State>, assets: Assets, before: Assets, i: nat)
    requires Steps(trace, assets) && Inv(trace[0], assets, before) && i < |trace|
    ensures Inv(trace[i], assets, before)
  {
    hide Inv, Apply, Enabled;
    if i > 0 {
      StepsKeepInv(trace, assets, before, i - 1);
      assert Next(trace[i - 1], trace[i], assets);
      var step :| Enabled(trace[i - 1], assets, step) && trace[i] == Apply(trace[i - 1], assets, step);
      InvStep(trace[i - 1], assets, before, step);
    }
  }

  lemma RunsKeepInv(trace: seq<State>, assets: Assets, before: Assets, i: nat)
    requires Runs(trace, assets, before) && assets.Valid() && i < |trace|
    ensures Inv(trace[i], assets, before)
  {
    hide Inv, Truthful;
    StartInv(trace[0], assets, before);
    StepsKeepInv(trace, assets, before, i);
  }

  lemma FinishedInSync(s: State, assets: Assets, before: Assets)
    requires Inv(s, assets, before) && s.pc.Finished?
    ensures HasAssets(s.disk.data, assets) && s.disk.data.Keys - s.failedRemovals <= assets.files.Keys
    ensures s.failedRemovals == {} ==> s.disk.data == assets.files
  {
    if s.failedRemovals == {} {
      assert s.disk.data.Keys == assets.files.Keys;
    }
  }

  // ---------------------------------------------------------------------------------------------
  // What holds over any number of interrupted runs
  // ---------------------------------------------------------------------------------------------

  /**
    Whenever a run has completed, whatever happened to the runs before it, the data folder is exactly
    the asset set, except for stale files that the system refused to remove.
   */
  lemma CompletedRunSyncs(trace: seq<State>, assets: Assets, before: Assets, i: nat)
    requires Runs(trace, assets, before) && assets.Valid() && i < |trace| && trace[i].pc.Finished?
    ensures forall p :: p in assets.files ==> p in trace[i].disk.data && trace[i].disk.data[p] == assets.files[p]
    ensures trace[i].disk.data.Keys - trace[i].failedRemovals <= assets.files.Keys
    ensures trace[i].failedRemovals == {} ==> trace[i].disk.data == assets.files
    ensures trace[i].failedRemovals == {} ==> Truthful(trace[i].disk, assets)
  {
    RunsKeepInv(trace, assets, before, i);
    FinishedInSync(trace[i], assets, before);
  }

  /**
    The same files stay in place at every moment of every run: what the old and the new version share
    is never missing or damaged, until the saved index is given up.
   */
  lemma SharedFilesNeverDamaged(trace: seq<State>, assets: Assets, before: Assets, i: nat, p: Path)
    requires Runs(trace, assets, before) && assets.Valid() && i < |trace| && trace[i].disk.save.Some?
    requires p in assets.files && p in before.files && before.files[p] == assets.files[p]
    ensures p in trace[i].disk.data && trace[i].disk.data[p] == assets.files[p]
  {
    RunsKeepInv(trace, assets, before, i);
  }
}

/**
  Any number of versions, each interrupted while it updates what the ones before it have left behind:
  for which of them the next completed run still leaves exactly its own assets.
 */
module AndroidChains {
  import opened Machine
  import opened AndroidSync
  import opened AndroidUpdates

  /** Some runs of version `v`, none or any number, each interrupted, lead from one state to the other. */
  ghost predicate Leads(trace: seq<State>, v: Assets, s: State, t: State) {
    Steps(trace, v) && trace[0] == s && trace[|trace| - 1] == t && t.pc.Start?
  }

  /** The versions run one after the other, starting with what a completed run of `before` has left. */
  ghost predicate Chain(states: seq<State>, traces: seq<seq<State>>, before: Assets, vs: seq<Assets>) {
    && |states| == |vs| + 1 && |traces| == |vs|
    && states[0].pc.Start? && states[0].failedRemovals == {} && Truthful(states[0].disk, before)
    && forall k, k' {:trigger Leads(traces[k], vs[k], states[k], states[k'])} ::
         0 <= k < |vs| && k' == k + 1 ==> Leads(traces[k], vs[k], states[k], states[k'])
  }

  /** After that version `a` runs, interrupted any number of times, and completes; no removal has failed. */
  ghost predicate ChainUpdates(states: seq<State>, traces: seq<seq<State>>, last: seq<State>,
                               before: Assets, vs: seq<Assets>, a: Assets)
  {
    && Chain(states, traces, before, vs)
    && Steps(last, a) && last[0] == states[|vs|]
    && last[|last| - 1].pc.Finished? && last[|last| - 1].failedRemovals == {}
  }

  ghost predicate ChainRepairs(before: Assets, vs: seq<Assets>, a: Assets) {
    forall states: seq<State>, traces: seq<seq<State>>, last: seq<State> ::
      ChainUpdates(states, traces, last, before, vs, a) ==> last[|last| - 1].disk.data == a.files
  }

  /** Version `x` has the file as version `a` wants it. */
  predicate Has(x: Assets, a: Assets, p: Path) {
    p in a.files && p in x.files && x.files[p] == a.files[p]
  }

  /** What `x` has as `a` wants it, the later version `v` has as well. */
  ghost predicate OnceRight(x: Assets, v: Assets, a: Assets) {
    forall p :: Has(x, a, p) ==> Has(v, a, p)
  }

  /** The first `k` versions have the index of `before`, and so find nothing to do. */
  ghost predicate Idle(before: Assets, vs: seq<Assets>, k: nat)
    requires k <= |vs|
  {
    forall j :: 0 <= j < k ==> vs[j].Index() == before.Index()
  }

  /** All the versions but the last. */
  function All(before: Assets, vs: seq<Assets>): (ws: seq<Assets>)
    ensures |ws| == |vs| + 1 && ws[0] == before && forall k :: 0 <= k < |vs| ==> ws[k + 1] == vs[k]
  {
    [before] + vs
  }

  /**
    A condition on the versions alone. Once one of them has a file as the last version wants it, all the
    later ones do; and from the first one that changes anything on, none has a file that the last one
    lacks.
   */
  ghost predicate ChainCompatible(before: Assets, vs: seq<Assets>, a: Assets) {
    && (forall i, k :: 0 <= i < k <= |vs| ==> OnceRight(All(before, vs)[i], All(before, vs)[k], a))
    && (forall k :: 0 <= k < |vs| && !Idle(before, vs, k + 1) ==> vs[k].files.Keys <= a.files.Keys)
  }

  ghost predicate AllValid(vs: seq<Assets>) {
    forall k :: 0 <= k < |vs| ==> vs[k].Valid()
  }

  // ---------------------------------------------------------------------------------------------
  // What a run keeps that belongs to an interrupted version
  // ---------------------------------------------------------------------------------------------

  /** Whatever a run of `a` would not touch is as `a` wants it. */
  ghost predicate Honest(data: map<Path, Bytes>, saved: seq<Line>, a: Assets) {
    forall p :: Spared(saved, a, p) ==> SameAt(data, a.files, p)
  }

  /** The saved index is missing or that of one of these versions. */
  ghost predicate Saved(save: Option<IndexFile>, known: seq<Assets>) {
    save.None? || exists k :: 0 <= k < |known| && save == Some(Whole(known[k].Index()))
  }

  /** The version that runs, and those whose index may be the saved one. */
  ghost predicate Fits(v: Assets, a: Assets, known: seq<Assets>) {
    && v.Valid() && a.Valid() && AllValid(known) && v in known
    && forall k :: 0 <= k < |known| ==> OnceRight(known[k], v, a)
  }

  ghost predicate HasLines(s: State, v: Assets) {
    s.disk.index == Some(Whole(v.Index())) && s.lines == v.Index() && s.saveLines == LinesOf(s.disk.save)
  }

  /** The changed assets before line `n` are unpacked. */
  ghost predicate Unpacked(s: State, v: Assets, n: nat) {
    forall j :: 1 <= j < n && j < |s.lines| && !Unchanged(s.saveLines, s.lines[j]) ==>
      var p := s.lines[j].filename; p in v.files && p in s.disk.data && s.disk.data[p] == v.files[p]
  }

  /** The stale files before line `n` of the saved index are gone. */
  ghost predicate Removed(s: State, v: Assets, n: nat) {
    forall j :: 1 <= j < n && j < |s.saveLines| && s.saveLines[j].filename in s.disk.data ==>
      s.saveLines[j].filename in v.files
  }

  /** The data is as `a` wants it where `a` has no file, and where it agrees with `v`. */
  ghost predicate Settled(data: map<Path, Bytes>, v: Assets, a: Assets) {
    && data.Keys <= a.files.Keys
    && forall p :: Has(v, a, p) ==> p in data && data[p] == a.files[p]
  }

  ghost predicate PlaceInv(s: State, v: Assets, a: Assets) {
    match s.pc
    case Reading => s.disk.index == Some(Whole(v.Index()))
    case CheckAsset(i) => HasLines(s, v) && 1 <= i && Unpacked(s, v, i)
    case WritingAsset(i, _) =>
      HasLines(s, v) && 1 <= i < |s.lines| && Unpacked(s, v, i) && !Unchanged(s.saveLines, s.lines[i])
    case CheckStale(i) => HasLines(s, v) && 1 <= i && Unpacked(s, v, |s.lines|) && Removed(s, v, i)
    case RemovingSave => s.disk.index == Some(Whole(v.Index())) && Settled(s.disk.data, v, a)
    case RenamingIndex => s.disk.index == Some(Whole(v.Index())) && Settled(s.disk.data, v, a)
    case _ => true
  }

  ghost predicate PassInv(s: State, v: Assets, a: Assets, known: seq<Assets>) {
    Saved(s.disk.save, known) && Honest(s.disk.data, LinesOf(s.disk.save), a) && PlaceInv(s, v, a)
  }

  /** Where the saved index agrees with `a` about a file, the version that runs has that file. */
  lemma SparedMeans(save: Option<IndexFile>, known: seq<Assets>, v: Assets, a: Assets, p: Path)
    requires Saved(save, known) && Fits(v, a, known) && Spared(LinesOf(save), a, p) && p in a.files
    ensures Has(v, a, p) && Unchanged(LinesOf(save), Line(p, FileDigest(a.files[p])))
  {
    hide Unchanged, Assets.Valid;
    FilesOfIndex(a, p);
    var j :| 1 <= j < |a.Index()| && a.Index()[j] == Line(p, FileDigest(a.files[p]));
    LinesOfIndex(a, j);
    assert Unchanged(LinesOf(save), a.Index()[j]);
    if save.None? {
      NothingUnchanged(a.Index()[j]);
    } else {
      var k :| 0 <= k < |known| && save == Some(Whole(known[k].Index()));
      UnchangedIffSame(known[k], a, a.Index()[j]);
      assert OnceRight(known[k], v, a);
    }
  }

  lemma NothingUnchanged(line: Line)
    ensures !Unchanged([], line)
  {
  }

  /** A run of `a` would not leave alone what a run of `v` writes. */
  lemma ChangedIsNotSpared(save: Option<IndexFile>, known: seq<Assets>, v: Assets, a: Assets, i: nat)
    requires Saved(save, known) && Fits(v, a, known) && v.files.Keys <= a.files.Keys
    requires 1 <= i < |v.Index()| && !Unchanged(LinesOf(save), v.Index()[i])
    ensures !Spared(LinesOf(save), a, v.Index()[i].filename)
  {
    hide Spared, Unchanged, Assets.Valid;
    LinesOfIndex(v, i);
    if Spared(LinesOf(save), a, v.Index()[i].filename) {
      SparedMeans(save, known, v, a, v.Index()[i].filename);
    }
  }

  lemma WriteKeeps(s: State, v: Assets, a: Assets, known: seq<Assets>, i: nat, content: Bytes, pc: Pc)
    requires Fits(v, a, known) && v.files.Keys <= a.files.Keys
    requires Saved(s.disk.save, known) && Honest(s.disk.data, LinesOf(s.disk.save), a)
    requires HasLines(s, v) && 1 <= i < |s.lines| && !Unchanged(s.saveLines, s.lines[i]) && Unpacked(s, v, i)
    ensures Honest(s.disk.data[s.lines[i].filename := content], LinesOf(s.disk.save), a)
    ensures Unpacked(WithData(s, s.disk.data[s.lines[i].filename := content], pc), v, i)
  {
    hide Spared, Unchanged, Assets.Valid;
    LinesOfIndex(v, i);
    ChangedIsNotSpared(s.disk.save, known, v, a, i);
  }

  /** All the lines are done: wherever `v` agrees with `a`, the data does. */
  lemma AllSettled(s: State, v: Assets, a: Assets, known: seq<Assets>)
    requires Fits(v, a, known) && v.files.Keys <= a.files.Keys
    requires Saved(s.disk.save, known) && Honest(s.disk.data, LinesOf(s.disk.save), a)
    requires HasLines(s, v) && Unpacked(s, v, |s.lines|) && Removed(s, v, |s.saveLines|)
    ensures Settled(s.disk.data, v, a)
  {
    hide Spared, Unchanged, Assets.Valid;
    forall p | p in s.disk.data
      ensures p in a.files
    {
      if forall j :: 1 <= j < |s.saveLines| ==> s.saveLines[j].filename != p {
        if p !in a.files {
          UnlistedIsSpared(s.saveLines, a, p);
        }
      }
    }
    forall p | Has(v, a, p)
      ensures p in s.disk.data && s.disk.data[p] == a.files[p]
    {
      FilesOfIndex(v, p);
      var j :| 1 <= j < |v.Index()| && v.Index()[j] == Line(p, FileDigest(v.files[p]));
      if Unchanged(s.saveLines, s.lines[j]) {
        UnchangedIsSpared(s.saveLines, a, p);
      }
    }
  }

  lemma UnlistedIsSpared(saved: seq<Line>, a: Assets, p: Path)
    requires a.Valid() && p !in a.files && forall j :: 1 <= j < |saved| ==> saved[j].filename != p
    ensures Spared(saved, a, p)
  {
    hide Unchanged;
    forall j | 1 <= j < |a.Index()|
      ensures a.Index()[j].filename != p
    {
      LinesOfIndex(a, j);
    }
  }

  lemma UnchangedIsSpared(saved: seq<Line>, a: Assets, p: Path)
    requires a.Valid() && p in a.files && Unchanged(saved, Line(p, FileDigest(a.files[p])))
    ensures Spared(saved, a, p)
  {
    forall j | 1 <= j < |a.Index()| && a.Index()[j].filename == p
      ensures Unchanged(saved, a.Index()[j])
    {
      LinesOfIndex(a, j);
    }
  }

  /** Without a saved index, or with that of `v`, a run of `a` finds in settled data only what is true. */
  lemma SettledIsHonest(data: map<Path, Bytes>, v: Assets, a: Assets, save: Option<IndexFile>)
    requires v.Valid() && a.Valid() && v.files.Keys <= a.files.Keys && Settled(data, v, a) && Saved(save, [v])
    ensures Honest(data, LinesOf(save), a)
  {
    hide Spared, Unchanged, Assets.Valid;
    forall p | Spared(LinesOf(save), a, p)
      ensures SameAt(data, a.files, p)
    {
      if p in a.files {
        SparedMeans(save, [v], v, a, p);
      }
    }
  }

  // ---------------------------------------------------------------------------------------------
  // Every step of that run keeps it
  // ---------------------------------------------------------------------------------------------

  lemma CheckAssetKeeps(s: State, v: Assets, a: Assets, known: seq<Assets>)
    requires PassInv(s, v, a, known) && Fits(v, a, known) && v.files.Keys <= a.files.Keys && s.pc.CheckAsset?
    ensures PassInv(Apply(s, v, Go), v, a, known)
  {
    hide Unchanged, Spared, Saved, Honest, Fits, UpToDate;
    var i := s.pc.i;
    if i < |s.lines| && !Unchanged(s.saveLines, s.lines[i]) {
      WriteKeeps(s, v, a, known, i, [], WritingAsset(i, 0));
    }
  }

  lemma WritingKeeps(s: State, v: Assets, a: Assets, known: seq<Assets>, n: nat)
    requires PassInv(s, v, a, known) && Fits(v, a, known) && v.files.Keys <= a.files.Keys && Enabled(s, v, Write(n))
    ensures PassInv(Apply(s, v, Write(n)), v, a, known)
  {
    hide Unchanged, Spared, Saved, Honest, UpToDate, Assets.Valid;
    var i := s.pc.i;
    var p := s.lines[i].filename;
    LinesOfIndex(v, i);
    WriteKeeps(s, v, a, known, i, v.files[p][..n], Apply(s, v, Write(n)).pc);
    assert v.files[p][..|v.files[p]|] == v.files[p];
  }

  lemma StaleKeeps(s: State, v: Assets, a: Assets, known: seq<Assets>)
    requires PassInv(s, v, a, known) && Fits(v, a, known) && v.files.Keys <= a.files.Keys && s.pc.CheckStale?
    ensures PassInv(Apply(s, v, Go), v, a, known)
  {
    hide Unchanged, Spared, UpToDate, Lists, Assets.Valid;
    var i := s.pc.i;
    if i >= |s.saveLines| {
      AllSettled(s, v, a, known);
    } else {
      var p := s.saveLines[i].filename;
      var k :| 0 <= k < |known| && s.disk.save == Some(Whole(known[k].Index()));
      LinesOfIndex(known[k], i);
      ListedIffFile(v, p);
      if !Lists(s.lines, p) && p in a.files && Spared(LinesOf(s.disk.save), a, p) {
        SparedMeans(s.disk.save, known, v, a, p);
      }
    }
  }

  lemma SaveKeeps(s: State, v: Assets, a: Assets, known: seq<Assets>)
    requires PassInv(s, v, a, known) && Fits(v, a, known) && v.files.Keys <= a.files.Keys
    requires (s.pc.RemovingSave? || s.pc.RenamingIndex?)
    ensures PassInv(Apply(s, v, Go), v, a, known)
  {
    hide Honest, Settled, UpToDate, Assets.Valid;
    var t := Apply(s, v, Go);
    assert [v][0] == v;
    SettledIsHonest(s.disk.data, v, a, t.disk.save);
    var k :| 0 <= k < |known| && known[k] == v;
  }

  /** Every step that is not a failed removal. */
  lemma PassStep(s: State, v: Assets, a: Assets, known: seq<Assets>, step: Step)
    requires PassInv(s, v, a, known) && Fits(v, a, known) && v.files.Keys <= a.files.Keys
    requires Enabled(s, v, step) && !step.FailRemoval?
    ensures PassInv(Apply(s, v, step), v, a, known)
  {
    hide Unchanged, Spared, Saved, Honest, Fits, Settled, UpToDate, Assets.Valid;
    match step
    case Cut =>
    case Write(n) => WritingKeeps(s, v, a, known, n);
    case Go =>
      match s.pc
      case CheckAsset(_) => CheckAssetKeeps(s, v, a, known);
      case CheckStale(_) => StaleKeeps(s, v, a, known);
      case RemovingSave => SaveKeeps(s, v, a, known);
      case RenamingIndex => SaveKeeps(s, v, a, known);
      case _ =>
  }

  lemma {:induction false} PassKeeps(trace: seq<State>, v: Assets, a: Assets, known: seq<Assets>, i: nat)
    requires Steps(trace, v) && trace[|trace| - 1].failedRemovals == {} && i < |trace|
    requires Fits(v, a, known) && v.files.Keys <= a.files.Keys && PassInv(trace[0], v, a, known)
    ensures PassInv(trace[i], v, a, known)
  {
    hide PassInv, Fits;
    if i > 0 {
      PassKeeps(trace, v, a, known, i - 1);
      FailedRemovalsGrow(trace, v, i);
      assert Next(trace[i - 1], trace[i], v);
      var step :| Enabled(trace[i - 1], v, step) && trace[i] == Apply(trace[i - 1], v, step);
      PassStep(trace[i - 1], v, a, known, step);
    }
  }

  // ---------------------------------------------------------------------------------------------
  // What the chain keeps from one version to the next
  // ---------------------------------------------------------------------------------------------

  /** Between two versions; until something changes, the saved index is still the first one. */
  ghost predicate Kept(s: State, before: Assets, vs: seq<Assets>, a: Assets, k: nat)
    requires k <= |vs|
  {
    && s.pc.Start? && Saved(s.disk.save, All(before, vs)[..k + 1]) && Honest(s.disk.data, LinesOf(s.disk.save), a)
    && (Idle(before, vs, k) && before.files != map[] ==> s.disk.save == Some(Whole(before.Index())))
  }

  lemma ChainStarts(s: State, before: Assets, vs: seq<Assets>, a: Assets)
    requires s.pc.Start? && Truthful(s.disk, before) && a.Valid()
    ensures Kept(s, before, vs, a, 0)
  {
    hide Spared, Unchanged, Assets.Valid;
    assert [before][0] == All(before, vs)[..1][0] == before;
    forall p | Spared(LinesOf(s.disk.save), a, p)
      ensures SameAt(before.files, a.files, p)
    {
      if p in a.files {
        SparedMeans(s.disk.save, [before], before, a, p);
      } else if p in before.files {
        FilesOfIndex(before, p);
        SparedIsUnlisted(LinesOf(s.disk.save), a, p);
      }
    }
  }

  lemma SparedIsUnlisted(saved: seq<Line>, a: Assets, p: Path)
    requires Spared(saved, a, p) && p !in a.files
    ensures forall j :: 1 <= j < |saved| ==> saved[j].filename != p
  {
    hide Unchanged;
  }

  /** The version has the index that is saved: its runs have nothing to do. */
  lemma IdlePass(trace: seq<State>, s: State, t: State, before: Assets, vs: seq<Assets>, a: Assets, k: nat)
    requires k < |vs| && Kept(s, before, vs, a, k) && Leads(trace, vs[k], s, t)
    requires Idle(before, vs, k + 1) && before.files != map[]
    ensures Kept(t, before, vs, a, k + 1)
  {
    hide Honest;
    NothingToDo(trace, vs[k], |trace| - 1);
    assert All(before, vs)[..k + 2][0] == before;
  }

  /** The version may change something, and has no file that `a` lacks. */
  lemma BusyPass(trace: seq<State>, s: State, t: State, before: Assets, vs: seq<Assets>, a: Assets, k: nat)
    requires k < |vs| && Kept(s, before, vs, a, k) && Leads(trace, vs[k], s, t) && t.failedRemovals == {}
    requires before.Valid() && AllValid(vs) && a.Valid()
    requires ChainCompatible(before, vs, a) && vs[k].files.Keys <= a.files.Keys
    ensures Saved(t.disk.save, All(before, vs)[..k + 2]) && Honest(t.disk.data, LinesOf(t.disk.save), a)
  {
    hide Honest, Saved, Fits, ChainCompatible, AllValid, Assets.Valid, Assets.Index;
    KnownFits(before, vs, a, k);
    SavedGrows(s.disk.save, All(before, vs), k);
    PassKeeps(trace, vs[k], a, All(before, vs)[..k + 2], |trace| - 1);
  }

  lemma KnownFits(before: Assets, vs: seq<Assets>, a: Assets, k: nat)
    requires before.Valid() && AllValid(vs) && a.Valid() && ChainCompatible(before, vs, a) && k < |vs|
    ensures Fits(vs[k], a, All(before, vs)[..k + 2])
  {
    hide Assets.Valid, Assets.Index, OnceRight;
    var all := All(before, vs);
    assert all[..k + 2][k + 1] == vs[k];
    forall i | 0 <= i < k + 2
      ensures OnceRight(all[i], vs[k], a)
    {
      assert i <= k ==> OnceRight(all[i], all[k + 1], a);
      RightItself(vs[k], a);
    }
  }

  lemma RightItself(v: Assets, a: Assets)
    ensures OnceRight(v, v, a)
  {
  }

  lemma SavedGrows(save: Option<IndexFile>, all: seq<Assets>, k: nat)
    requires k + 2 <= |all| && Saved(save, all[..k + 1])
    ensures Saved(save, all[..k + 2])
  {
    if save.Some? {
      var j :| 0 <= j < |all[..k + 1]| && save == Some(Whole(all[..k + 1][j].Index()));
      assert all[..k + 2][j] == all[..k + 1][j];
    }
  }

  lemma PassOn(trace: seq<State>, s: State, t: State, before: Assets, vs: seq<Assets>, a: Assets, k: nat)
    requires k < |vs| && Kept(s, before, vs, a, k) && Leads(trace, vs[k], s, t) && t.failedRemovals == {}
    requires before.Valid() && AllValid(vs) && a.Valid() && ChainCompatible(before, vs, a)
    ensures Kept(t, before, vs, a, k + 1)
  {
    hide Honest, Saved, Assets.Valid, OnceRight;
    if Idle(before, vs, k + 1) && before.files != map[] {
      IdlePass(trace, s, t, before, vs, a, k);
    } else {
      if Idle(before, vs, k + 1) {
        SameIndexSameFiles(vs[k], before);
      }
      BusyPass(trace, s, t, before, vs, a, k);
    }
  }

  lemma {:induction false} ChainKeeps(states: seq<State>, traces: seq<seq<State>>,
                                      before: Assets, vs: seq<Assets>, a: Assets, k: nat)
    requires Chain(states, traces, before, vs) && AllValid(vs) && a.Valid() && ChainCompatible(before, vs, a)
    requires k <= |vs| && states[k].failedRemovals == {}
    ensures Kept(states[k], before, vs, a, k)
  {
    hide Kept, ChainCompatible, Idle, Assets.Valid;
    if k == 0 {
      ChainStarts(states[0], before, vs, a);
    } else {
      assert Leads(traces[k - 1], vs[k - 1], states[k - 1], states[k]);
      FailedRemovalsGrow(traces[k - 1], vs[k - 1], 0);
      ChainKeeps(states, traces, before, vs, a, k - 1);
      PassOn(traces[k - 1], states[k - 1], states[k], before, vs, a, k - 1);
    }
  }

  /** A saved index that belongs to a version, over honest data. */
  lemma HonestKeepsUnchanged(data: map<Path, Bytes>, from: Assets, a: Assets)
    requires from.Valid() && a.Valid() && Honest(data, from.Index(), a)
    ensures KeepsUnchanged(data, a, from) && (from.Index() == a.Index() ==> HasAssets(data, a))
  {
    hide Spared, Unchanged, Assets.Valid;
    if from.Index() == a.Index() {
      SameIndexSameFiles(from, a);
    }
    forall p | p in a.files && p in from.files && from.files[p] == a.files[p]
      ensures p in data && data[p] == a.files[p]
    {
      SharedFileIsSpared(from, a, p);
      assert SameAt(data, a.files, p);
    }
  }

  lemma HonestKeys(data: map<Path, Bytes>, saved: seq<Line>, a: Assets, p: Path)
    requires a.Valid() && Honest(data, saved, a) && p in data
    ensures p in a.files || exists j :: 1 <= j < |saved| && saved[j].filename == p
  {
    hide Spared, Unchanged, Assets.Valid;
    if p !in a.files && forall j :: 1 <= j < |saved| ==> saved[j].filename != p {
      UnlistedIsSpared(saved, a, p);
    }
  }

  lemma HonestKeysBound(data: map<Path, Bytes>, save: Option<IndexFile>, from: Assets, a: Assets)
    requires from.Valid() && a.Valid() && Honest(data, LinesOf(save), a) && (save.None? || save == Some(Whole(from.Index())))
    ensures data.Keys <= if save.None? then a.files.Keys else a.files.Keys + from.files.Keys
  {
    hide Honest, Assets.Valid;
    forall p | p in data.Keys
      ensures p in a.files || (save.Some? && p in from.files)
    {
      HonestKeys(data, LinesOf(save), a, p);
      if p !in a.files {
        var j :| 1 <= j < |LinesOf(save)| && LinesOf(save)[j].filename == p;
        LinesOfIndex(from, j);
      }
    }
  }

  /** What a chain leaves behind is something a run of `a` can start from. */
  lemma KeptStarts(s: State, before: Assets, vs: seq<Assets>, a: Assets) returns (from: Assets)
    requires Kept(s, before, vs, a, |vs|) && before.Valid() && AllValid(vs) && a.Valid()
    ensures Inv(s, a, from)
  {
    hide Honest, Assets.Valid, Assets.Index, KeepsUnchanged, HasAssets;
    from := before;
    if s.disk.save.Some? {
      var known := All(before, vs)[..|vs| + 1];
      var k :| 0 <= k < |known| && s.disk.save == Some(Whole(known[k].Index()));
      from := known[k];
      HonestKeepsUnchanged(s.disk.data, from, a);
      if from.Index() == a.Index() {
        SameIndexSameFiles(from, a);
      }
    }
    HonestKeysBound(s.disk.data, s.disk.save, from, a);
  }

  lemma CompatibleChainRepairs(states: seq<State>, traces: seq<seq<State>>, last: seq<State>,
                               before: Assets, vs: seq<Assets>, a: Assets)
    requires ChainUpdates(states, traces, last, before, vs, a)
    requires AllValid(vs) && a.Valid() && ChainCompatible(before, vs, a)
    ensures last[|last| - 1].disk.data == a.files
  {
    hide ChainCompatible, Kept, Inv, Assets.Valid;
    FailedRemovalsGrow(last, a, 0);
    ChainKeeps(states, traces, before, vs, a, |vs|);
    var from := KeptStarts(last[0], before, vs, a);
    StepsKeepInv(last, a, from, |last| - 1);
    FinishedInSync(last[|last| - 1], a, from);
  }

  // ---------------------------------------------------------------------------------------------
  // Where the condition fails
  // ---------------------------------------------------------------------------------------------

  lemma ChainSnoc(states: seq<State>, traces: seq<seq<State>>, before: Assets, vs: seq<Assets>,
                  v: Assets, trace: seq<State>, t: State)
    requires Chain(states, traces, before, vs) && Leads(trace, v, states[|vs|], t)
    ensures Chain(states + [t], traces + [trace], before, vs + [v])
  {
    hide Leads, Truthful;
    var states', traces', vs' := states + [t], traces + [trace], vs + [v];
    forall k, k' | 0 <= k < |vs'| && k' == k + 1
      ensures Leads(traces'[k], vs'[k], states'[k], states'[k'])
    {
      assert k < |vs| ==> Leads(traces[k], vs[k], states[k], states[k']);
    }
  }

  /** Versions that are never started leave everything as it is. */
  lemma {:induction false} Wait(states: seq<State>, traces: seq<seq<State>>,
                                before: Assets, vs: seq<Assets>, i: nat, j: nat)
    returns (states': seq<State>, traces': seq<seq<State>>)
    requires i <= j <= |vs| && Chain(states, traces, before, vs[..i]) && states[i].pc.Start?
    ensures Chain(states', traces', before, vs[..j]) && states'[j] == states[i]
    decreases j - i
  {
    states', traces' := states, traces;
    if i < j {
      ChainSnoc(states, traces, before, vs[..i], vs[i], [states[i]], states[i]);
      assert vs[..i] + [vs[i]] == vs[..i + 1];
      states', traces' := Wait(states + [states[i]], traces + [[states[i]]], before, vs, i + 1, j);
    }
  }

  /** One complete run of the next version. */
  lemma Completes(before: Assets, v: Assets) returns (trace: seq<State>)
    requires before.Valid() && v.Valid()
    ensures Leads(trace, v, Installed(before), Installed(v))
  {
    if before.Index() == v.Index() {
      SameIndexSameFiles(before, v);
      trace := [Installed(v)];
    } else {
      trace := UnpacksUpTo(before, v, RenamingIndex);
      StepsSnoc(trace, v, Go);
      trace := trace + [Apply(trace[|trace| - 1], v, Go)];
      StepsSnoc(trace, v, Cut);
      trace := trace + [Apply(trace[|trace| - 1], v, Cut)];
    }
  }

  lemma ReachesInstalled(before: Assets, vs: seq<Assets>, i: nat) returns (states: seq<State>, traces: seq<seq<State>>)
    requires before.Valid() && AllValid(vs) && i <= |vs|
    ensures Chain(states, traces, before, vs[..i]) && states[i] == Installed(All(before, vs)[i])
  {
    hide Leads, Assets.Valid;
    states, traces := [Installed(before)], [];
    if i > 0 {
      states, traces := Wait(states, traces, before, vs, 0, i - 1);
      var trace := Completes(before, vs[i - 1]);
      ChainSnoc(states, traces, before, vs[..i - 1], vs[i - 1], trace, Installed(vs[i - 1]));
      assert vs[..i - 1] + [vs[i - 1]] == vs[..i];
      states, traces := states + [Installed(vs[i - 1])], traces + [trace];
    }
  }

  /** Version `i` has run to completion, version `k` is interrupted, and no other one is ever started. */
  lemma StopsAt(before: Assets, vs: seq<Assets>, i: nat, k: nat, goal: Pc)
    returns (states: seq<State>, traces: seq<seq<State>>)
    requires before.Valid() && AllValid(vs) && i < k <= |vs| && goal in {RemovingSave, RenamingIndex}
    requires All(before, vs)[i].Index() != All(before, vs)[k].Index()
    ensures Chain(states, traces, before, vs) && |states| == |vs| + 1
    ensures var s := states[|vs|];
            && s.pc.Start? && s.failedRemovals == {} && s.disk.data == All(before, vs)[k].files
            && s.disk.save == if goal.RemovingSave? then Some(Whole(All(before, vs)[i].Index())) else None
  {
    hide Chain, Assets.Valid;
    states, traces := ReachesInstalled(before, vs, i);
    states, traces := Wait(states, traces, before, vs, i, k - 1);
    var trace := InterruptedAt(All(before, vs)[i], vs[k - 1], goal);
    var t := trace[|trace| - 1];
    ChainSnoc(states, traces, before, vs[..k - 1], vs[k - 1], trace, t);
    assert vs[..k - 1] + [vs[k - 1]] == vs[..k];
    states, traces := Wait(states + [t], traces + [trace], before, vs, k, |vs|);
    assert vs[..|vs|] == vs;
  }

  /** Version `k` damages a file that version `i` had as `a` wants it, and the saved index still vouches for it. */
  lemma DamageStays(before: Assets, vs: seq<Assets>, a: Assets, i: nat, k: nat, p: Path)
    returns (states: seq<State>, traces: seq<seq<State>>, last: seq<State>)
    requires before.Valid() && AllValid(vs) && a.Valid() && i < k <= |vs|
    requires Has(All(before, vs)[i], a, p) && !Has(All(before, vs)[k], a, p)
    ensures ChainUpdates(states, traces, last, before, vs, a) && last[|last| - 1].disk.data != a.files
  {
    hide Spared, Chain, Assets.Valid;
    var x, v := All(before, vs)[i], All(before, vs)[k];
    AllAreValid(before, vs);
    if x.Index() == v.Index() {
      SameIndexSameFiles(x, v);
    }
    states, traces := StopsAt(before, vs, i, k, RemovingSave);
    SharedFileIsSpared(x, a, p);
    last := CompletesAround(states[|vs|], a, p);
  }

  lemma AllAreValid(before: Assets, vs: seq<Assets>)
    requires before.Valid() && AllValid(vs)
    ensures AllValid(All(before, vs))
  {
    hide Assets.Valid;
  }

  /** Version `k` unpacks a file that `a` does not know of, and no saved index lists it. */
  lemma StaleFileStays(before: Assets, vs: seq<Assets>, a: Assets, i: nat, k: nat, p: Path)
    returns (states: seq<State>, traces: seq<seq<State>>, last: seq<State>)
    requires before.Valid() && AllValid(vs) && a.Valid() && i < k <= |vs|
    requires All(before, vs)[i].Index() != All(before, vs)[k].Index()
    requires p in All(before, vs)[k].files && p !in a.files
    ensures ChainUpdates(states, traces, last, before, vs, a) && last[|last| - 1].disk.data != a.files
  {
    hide Spared, Chain, Assets.Valid;
    states, traces := StopsAt(before, vs, i, k, RenamingIndex);
    UnknownFileIsSpared(a, p);
    last := CompletesAround(states[|vs|], a, p);
  }

  /** Where the condition fails, there is a chain of interruptions that is not repaired. */
  lemma IncompatibleChainFails(before: Assets, vs: seq<Assets>, a: Assets)
    returns (states: seq<State>, traces: seq<seq<State>>, last: seq<State>)
    requires before.Valid() && AllValid(vs) && a.Valid() && !ChainCompatible(before, vs, a)
    ensures ChainUpdates(states, traces, last, before, vs, a) && last[|last| - 1].disk.data != a.files
  {
    hide ChainUpdates, Assets.Valid, Assets.Index, Has, All;
    var all := All(before, vs);
    if i, k :| 0 <= i < k <= |vs| && !OnceRight(all[i], all[k], a) {
      var p :| Has(all[i], a, p) && !Has(all[k], a, p);
      states, traces, last := DamageStays(before, vs, a, i, k, p);
    } else {
      var k :| 0 <= k < |vs| && !Idle(before, vs, k + 1) && !(vs[k].files.Keys <= a.files.Keys);
      var p :| p in vs[k].files.Keys && p !in a.files.Keys;
      var j :| 0 <= j < k + 1 && vs[j].Index() != before.Index();
      var i := if vs[k].Index() != before.Index() then 0 else j + 1;
      states, traces, last := StaleFileStays(before, vs, a, i, k + 1, p);
    }
  }

  /**
    A chain of interrupted versions, however long and however often each one is interrupted, is repaired by
    the next completed run, in every case, exactly if the versions are compatible.
   */
  lemma ChainRepairsIffCompatible(before: Assets, vs: seq<Assets>, a: Assets)
    requires before.Valid() && AllValid(vs) && a.Valid()
    ensures ChainRepairs(before, vs, a) <==> ChainCompatible(before, vs, a)
  {
    hide ChainCompatible, Chain;
    if ChainCompatible(before, vs, a) {
      forall states: seq<State>, traces: seq<seq<State>>, last: seq<State>
        | ChainUpdates(states, traces, last, before, vs, a)
        ensures last[|last| - 1].disk.data == a.files
      {
        CompatibleChainRepairs(states, traces, last, before, vs, a);
      }
    } else {
      var states, traces, last := IncompatibleChainFails(before, vs, a);
    }
  }

  /** For one interrupted version it is the condition of `AndroidUpdates`. */
  lemma OneVersionChain(before: Assets, v: Assets, a: Assets)
    requires before.Valid() && v.Valid()
    ensures ChainCompatible(before, [v], a) <==> Compatible(before, v, a)
  {
    hide Assets.Valid, Assets.Index;
    var all := All(before, [v]);
    if v.Index() == before.Index() {
      SameIndexSameFiles(v, before);
    }
    assert all[0] == before && all[1] == [v][0] == v;
    assert Idle(before, [v], 1) <==> v.Index() == before.Index();
    if Compatible(before, v, a) {
      forall i, k | 0 <= i < k <= 1
        ensures OnceRight(all[i], all[k], a)
      {
      }
      forall k | 0 <= k < 1 && !Idle(before, [v], k + 1)
        ensures [v][k].files.Keys <= a.files.Keys
      {
      }
    } else if OnceRight(all[0], all[1], a) {
      forall p | p in a.files && p in before.files && a.files[p] == before.files[p]
        ensures p in v.files && v.files[p] == a.files[p]
      {
        assert Has(before, a, p);
      }
    }
  }
}

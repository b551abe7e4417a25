/**
 * The path-resolution test (test/suites/path-resolution/test.js): copy a
 * sample zip into each work location under a numbered name, run the
 * extractor on each copy, and compare the directory its log reports with
 * the directory of the copy.
 */
module PathResolution {
  import opened Wrappers
  import opened Strings
  import opened Paths
  import opened RepoLayout
  import opened FileSystemModel
  import opened LogAnalysis

  /** The name of the copy made in the location with this index. */
  function ZipName(index: nat): string
  {
    "test-" + NatToString(index) + ".zip"
  }

  /** Different indices give different names. */
  lemma ZipNameInjective(i: nat, j: nat)
    requires ZipName(i) == ZipName(j)
    ensures i == j
  {
    var a := ZipName(i);
    var b := ZipName(j);
    assert |NatToString(i)| == |NatToString(j)|;
    assert NatToString(i) == a[5..|a| - 4];
    assert NatToString(j) == b[5..|b| - 4];
    NatToStringInjective(i, j);
  }

  /** `path.join(dir, \`test-${index}.zip\`)` for each location, in order. */
  function ZipTargets(locations: seq<Path>): (r: seq<Path>)
    ensures |r| == |locations|
    ensures forall i :: 0 <= i < |r| ==>
      && |r[i].segments| > 0 && Dirname(r[i]) == locations[i] && Basename(r[i]) == ZipName(i)
      && r[i].absolute == locations[i].absolute
  {
    seq(|locations|, i requires 0 <= i < |locations| => Child(locations[i], ZipName(i)))
  }

  /** No two copies share a path, even when two locations are the same directory. */
  lemma ZipTargetsDistinct(locations: seq<Path>, i: nat, j: nat)
    requires i < j < |locations|
    ensures ZipTargets(locations)[i] != ZipTargets(locations)[j]
  {
    var r := ZipTargets(locations);
    if r[i] == r[j] {
      ZipNameInjective(i, j);
    }
  }

  /** The copy for location `i` is none of the copies made before it. */
  lemma ZipTargetIsNew(locations: seq<Path>, i: nat)
    requires i < |locations|
    ensures forall j :: 0 <= j < i ==> ZipTargets(locations)[..i][j] != ZipTargets(locations)[i]
  {
    forall j | 0 <= j < i
      ensures ZipTargets(locations)[..i][j] != ZipTargets(locations)[i]
    {
      ZipTargetsDistinct(locations, j, i);
    }
  }

  /** For the layout of the repository: `location1/test-0.zip` and `location2/test-1.zip`. */
  lemma LayoutTargets(root: Path)
    ensures var L := Build(root);
      ZipTargets([L.location1, L.location2])
        == [Child(L.location1, "test-0.zip"), Child(L.location2, "test-1.zip")]
  {
    assert Digit(0) == '0' && Digit(1) == '1';
    assert ZipName(0) == "test-0.zip" && ZipName(1) == "test-1.zip";
  }

  /**
   * `prepareTestZips`: for each location, create it and copy the sample
   * into it. On success every copy resolves to the file the sample was
   * at the start, and no existing entry changed kind. It succeeds when the
   * sample is a file, every location is a directory or missing with its
   * target free, and no target lies on the way to a location; the ghost
   * flag `ready` stands for that condition, so that the loop can carry it
   * without restating it at every turn.
   */
  method PrepareTestZips(fs: FileSystem, locations: seq<Path>, sample: Path, ghost ready: bool)
    returns (r: Result<seq<Path>, Errno>)
    requires fs.Valid() && forall i :: 0 <= i < |locations| ==> locations[i].absolute
    requires ready ==> AllPlaceable(fs.entries, fs.denied, sample, locations, ZipTargets(locations))
    modifies fs
    ensures fs.Valid() && KeepsKinds(old(fs.entries), fs.entries)
    ensures ChangedOnly(old(fs.entries), fs.entries, ZipTargets(locations), locations)
    ensures ready ==> r.Success?
    ensures r.Success? ==> r.value == ZipTargets(locations)
    ensures r.Success? && |locations| > 0 ==>
      && Lookup(old(fs.entries), fs.denied, sample).Success?
      && Lookup(old(fs.entries), fs.denied, sample).value.File?
      && forall i :: 0 <= i < |r.value| ==>
           Lookup(fs.entries, fs.denied, r.value[i]) == Lookup(old(fs.entries), fs.denied, sample)
  {
    var targets := ZipTargets(locations);
    var zips: seq<Path> := [];
    var i := 0;
    while i < |locations|
      invariant fs.Valid() && KeepsKinds(old(fs.entries), fs.entries)
      invariant 0 <= i <= |locations| && zips == targets[..i]
      invariant i == 0 ==> fs.entries == old(fs.entries)
      invariant ChangedOnly(old(fs.entries), fs.entries, targets[..i], locations[..i])
      invariant i > 0 ==>
        && Lookup(old(fs.entries), fs.denied, sample).Success?
        && Lookup(old(fs.entries), fs.denied, sample).value.File?
        && Lookup(fs.entries, fs.denied, sample) == Lookup(old(fs.entries), fs.denied, sample)
      invariant AllResolveTo(fs.entries, fs.denied, zips, Lookup(old(fs.entries), fs.denied, sample))
    {
      var target := targets[i];
      ZipTargetIsNew(locations, i);
      ghost var before := fs.entries;
      assert ready ==> CanPlace(fs.entries, fs.denied, locations[i], sample, target) by {
        if ready {
          StillFree(old(fs.entries), fs.entries, fs.denied, sample, locations, targets, i);
        }
      }
      var placed := PlaceCopy(fs, locations[i], sample, target, zips, ready);
      ChangedOnlyNext(old(fs.entries), before, fs.entries, targets, locations, i);
      if placed.Failure? {
        return Failure(placed.error);
      }
      KeepsKindsTransitive(old(fs.entries), before, fs.entries);
      assert targets[..i + 1] == zips + [target];
      zips := zips + [target];
      i := i + 1;
    }
    ChangedOnlyWiden(old(fs.entries), fs.entries, targets[..i], locations[..i], targets, locations);
    r := Success(zips);
  }

  /**
   * One turn of the loop in `prepareTestZips`: create `dir`, then copy the
   * sample to `target`. Only `target` is written and only directories
   * on the way to `dir` are added. On success the sample and every copy
   * placed before, and the new one, resolve to the file the sample was.
   * It succeeds when the sample is a file and the target is free in
   * `dir`, or `dir` is missing.
   */
  method PlaceCopy(fs: FileSystem, dir: Path, sample: Path, target: Path, ghost placed: seq<Path>, ghost free: bool)
    returns (r: Result<(), Errno>)
    requires fs.Valid() && dir.absolute && target.absolute
    requires |placed| > 0 ==>
      Lookup(fs.entries, fs.denied, sample).Success? && Lookup(fs.entries, fs.denied, sample).value.File?
    requires AllResolveTo(fs.entries, fs.denied, placed, Lookup(fs.entries, fs.denied, sample))
    requires forall j :: 0 <= j < |placed| ==> placed[j] != target
    requires free ==> CanPlace(fs.entries, fs.denied, dir, sample, target)
    modifies fs
    ensures fs.Valid() && KeepsKinds(old(fs.entries), fs.entries)
    ensures ChangedOnly(old(fs.entries), fs.entries, [target], [dir])
    ensures free ==> r.Success?
    ensures r.Success? ==>
      && old(Lookup(fs.entries, fs.denied, sample)).Success?
      && old(Lookup(fs.entries, fs.denied, sample)).value.File?
      && Lookup(fs.entries, fs.denied, sample) == old(Lookup(fs.entries, fs.denied, sample))
      && AllResolveTo(fs.entries, fs.denied, placed + [target], old(Lookup(fs.entries, fs.denied, sample)))
  {
    ghost var start := fs.entries;
    var made := fs.MakeDirectory(dir);
    if made.Failure? {
      ChangedOnlyByCopy(start, fs.entries, target);
      ChangedOnlyWiden(start, fs.entries, [target], [], [target], [dir]);
      return Failure(made.error);
    }
    ExtendsKeepsKinds(start, fs.entries);
    KeptAfterMkdir(start, fs.entries, fs.denied, sample, placed, |placed| > 0);
    if free {
      FreeAfterMkdir(start, fs.entries, fs.denied, dir, sample, target);
    }
    ghost var mid := fs.entries;
    r := fs.CopyFile(sample, target);
    PlacedFrame(start, mid, fs.entries, dir, target);
    if r.Failure? {
      return;
    }
    KeepsKindsTransitive(start, mid, fs.entries);
    FileFoundBefore(start, mid, fs.denied, sample);
    KeptAfterCopy(mid, fs.entries, fs.denied, sample, target, placed);
  }

  /** A `mkdir` of `dir` followed by a copy to `target` writes only `target` and directories on the way to `dir`. */
  lemma PlacedFrame(m0: map<Path, Node>, m1: map<Path, Node>, m2: map<Path, Node>, dir: Path, target: Path)
    requires Extends(m0, m1)
    requires forall q :: q in m1 && q !in m0 ==> m1[q].Dir? && AncestorOrSelf(q, dir)
    requires KeepsKinds(m1, m2) && m1.Keys <= m2.Keys <= m1.Keys + {target}
    requires forall q :: q in m1 && m1[q].File? && q != target ==> m2[q] == m1[q]
    ensures ChangedOnly(m0, m2, [target], [dir])
  {
    ChangedOnlyByMkdir(m0, m1, dir);
    ChangedOnlyByCopy(m1, m2, target);
    ChangedOnlyStep(m0, m1, m2, [], [dir], [target], []);
    assert [] + [target] == [target] && [dir] + [] == [dir];
  }

  /** One more turn of the loop in `prepareTestZips`, as far as what it may change. */
  lemma ChangedOnlyNext(m0: map<Path, Node>, m1: map<Path, Node>, m2: map<Path, Node>,
                        targets: seq<Path>, locations: seq<Path>, i: nat)
    requires i < |targets| && i < |locations|
    requires ChangedOnly(m0, m1, targets[..i], locations[..i])
    requires ChangedOnly(m1, m2, [targets[i]], [locations[i]]) && KeepsKinds(m1, m2)
    ensures ChangedOnly(m0, m2, targets[..i + 1], locations[..i + 1])
    ensures ChangedOnly(m0, m2, targets, locations)
  {
    ChangedOnlyStep(m0, m1, m2, targets[..i], locations[..i], [targets[i]], [locations[i]]);
    assert targets[..i] + [targets[i]] == targets[..i + 1];
    assert locations[..i] + [locations[i]] == locations[..i + 1];
    ChangedOnlyWiden(m0, m2, targets[..i + 1], locations[..i + 1], targets, locations);
  }

  /** Lookups of existing files survive a directory creation. */
  lemma KeptAfterMkdir(m: map<Path, Node>, m2: map<Path, Node>, denied: set<Path>,
                       sample: Path, zips: seq<Path>, sampleFound: bool)
    requires Extends(m, m2)
    requires sampleFound ==> Lookup(m, denied, sample).Success? && Lookup(m, denied, sample).value.File?
    requires AllResolveTo(m, denied, zips, Lookup(m, denied, sample))
    requires |zips| > 0 ==> sampleFound
    ensures sampleFound ==> Lookup(m2, denied, sample) == Lookup(m, denied, sample)
    ensures AllResolveTo(m2, denied, zips, Lookup(m, denied, sample))
  {
    ExtendsKeepsKinds(m, m2);
    if sampleFound {
      LookupSuccess(m, denied, sample);
      LookupKept(m, m2, denied, sample);
      forall j | 0 <= j < |zips|
        ensures Lookup(m2, denied, zips[j]) == Lookup(m, denied, sample)
      {
        LookupSuccess(m, denied, zips[j]);
        LookupKept(m, m2, denied, zips[j]);
      }
    }
  }

  /** A copy to `target` leaves every other file where it was. */
  lemma KeptAfterCopy(m: map<Path, Node>, m2: map<Path, Node>, denied: set<Path>,
                      sample: Path, target: Path, zips: seq<Path>)
    requires KeepsKinds(m, m2)
    requires Lookup(m, denied, sample).Success? && Lookup(m, denied, sample).value.File?
    requires forall q :: q in m && m[q].File? && q != target ==> m2[q] == m[q]
    requires target in m2 && m2[target] == m[sample]
    requires Lookup(m2, denied, target) == Success(m2[target])
    requires AllResolveTo(m, denied, zips, Lookup(m, denied, sample))
    requires forall j :: 0 <= j < |zips| ==> zips[j] != target
    ensures Lookup(m2, denied, sample) == Lookup(m, denied, sample)
    ensures AllResolveTo(m2, denied, zips + [target], Lookup(m, denied, sample))
  {
    LookupSuccess(m, denied, sample);
    LookupKept(m, m2, denied, sample);
    forall j | 0 <= j < |zips| + 1
      ensures Lookup(m2, denied, (zips + [target])[j]) == Lookup(m, denied, sample)
    {
      if j < |zips| {
        assert (zips + [target])[j] == zips[j];
        LookupSuccess(m, denied, zips[j]);
        LookupKept(m, m2, denied, zips[j]);
      }
    }
  }

  // ---------------------------------------------------------------------
  // running the extractor and checking where it extracted

  /**
   * What one run of the extractor leaves behind: its exit code (`None`
   * when it was killed by a signal) and the text of the combined log.
   */
  datatype Run = Run(code: Option<int>, log: string)

  /**
   * The directory the log reported matches the directory of the zip: for a
   * normalised zip path, the reported text names exactly that directory.
   */
  predicate Passed(extracted: string, zip: Path)
    ensures Passed(extracted, zip) && Canonical(zip) ==> Parse(extracted) == Dirname(zip)
  {
    ParseRender(Dirname(zip));
    extracted == Render(Dirname(zip))
  }

  /**
   * What the test prints: a verdict per zip it got through, and the error
   * that stopped it, if any.
   */
  datatype Report = Report(verdicts: seq<bool>, error: Option<string>)

  /** `runExtractBookAndAnalyzeLogs` for one zip, given the run it caused. */
  function Outcome(run: Run, zip: Path): (r: Result<string, string>)
    ensures run.code != Some(0) ==> r == Failure(ExitMessage(run.code))
    ensures r.Success? ==> SingleLine(r.value) && r.value != ""
  {
    AnalyzeLog(run.code, run.log, Render(zip))
  }

  /**
   * Every verdict so far is the comparison for a run whose analysis, by
   * `analyze`, succeeded.
   */
  predicate JudgedBy(analyze: (Run, Path) -> Result<string, string>,
                     zips: seq<Path>, runs: seq<Run>, verdicts: seq<bool>)
    requires |verdicts| <= |zips| == |runs|
  {
    forall k :: 0 <= k < |verdicts| ==>
      analyze(runs[k], zips[k]).Success? && verdicts[k] == Passed(analyze(runs[k], zips[k]).value, zips[k])
  }

  /** The verdicts of the test: judged by the log analysis. */
  predicate Judged(zips: seq<Path>, runs: seq<Run>, verdicts: seq<bool>)
    requires |verdicts| <= |zips| == |runs|
  {
    JudgedBy(Outcome, zips, runs, verdicts)
  }

  /** A successful analysis extends the verdicts by its comparison. */
  lemma JudgedExtend(analyze: (Run, Path) -> Result<string, string>,
                     zips: seq<Path>, runs: seq<Run>, verdicts: seq<bool>)
    requires |verdicts| < |zips| == |runs| && JudgedBy(analyze, zips, runs, verdicts)
    requires analyze(runs[|verdicts|], zips[|verdicts|]).Success?
    ensures JudgedBy(analyze, zips, runs,
      verdicts + [Passed(analyze(runs[|verdicts|], zips[|verdicts|]).value, zips[|verdicts|])])
  {
    var n := |verdicts|;
    var v := verdicts + [Passed(analyze(runs[n], zips[n]).value, zips[n])];
    forall k | 0 <= k < |v|
      ensures analyze(runs[k], zips[k]).Success? && v[k] == Passed(analyze(runs[k], zips[k]).value, zips[k])
    {
      if k < n {
        assert v[k] == verdicts[k];
      }
    }
  }

  /**
   * The loop of `testPathResolution`: analyse each run in turn; a rejected
   * analysis ends the loop (the `catch` around it), a mismatch does not.
   */
  method TestPathResolution(zips: seq<Path>, runs: seq<Run>) returns (report: Report)
    requires |runs| == |zips|
    ensures |report.verdicts| <= |zips| && Judged(zips, runs, report.verdicts)
    ensures report.error.None? <==> |report.verdicts| == |zips|
    ensures report.error.Some? ==>
      Outcome(runs[|report.verdicts|], zips[|report.verdicts|]) == Failure(report.error.value)
  {
    var verdicts: seq<bool> := [];
    var i := 0;
    while i < |zips|
      invariant 0 <= i <= |zips| && |verdicts| == i && Judged(zips, runs, verdicts)
    {
      var outcome := Outcome(runs[i], zips[i]);
      if outcome.Failure? {
        return Report(verdicts, Some(outcome.error));
      }
      JudgedExtend(Outcome, zips, runs, verdicts);
      verdicts := verdicts + [Passed(outcome.value, zips[i])];
      i := i + 1;
    }
    report := Report(verdicts, None);
  }

  /**
   * A run whose log records the zip's own directory as the place it
   * extracted to passes.
   */
  lemma RecordedRunPasses(run: Run, k: nat, zip: Path)
    requires run.code == Some(0) && zip.absolute
    requires Selected(Split(run.log, Marker), Render(zip), k)
    requires Split(run.log, Marker)[k] == Record(Render(zip), Render(Dirname(zip)))
    requires SingleLine(Render(zip)) && !Contains(Render(zip), Prefix)
    requires SingleLine(Render(Dirname(zip))) && !Contains(" " + Render(Dirname(zip)), Arrow)
    ensures Outcome(run, zip).Success? && Passed(Outcome(run, zip).value, zip)
  {
    RecordedDirectoryIsRecovered(run.log, k, Render(zip), Render(Dirname(zip)));
  }

  /**
   * `testPathResolution` as a whole: prepare the copies, then check each
   * one against the run it was given. A file-system error during the
   * preparation ends the test before any run (the `catch`); there is none
   * when every turn of the preparation can place its copy.
   */
  method PathResolutionTest(fs: FileSystem, locations: seq<Path>, sample: Path, runs: seq<Run>)
    returns (r: Result<Report, Errno>)
    requires fs.Valid() && forall i :: 0 <= i < |locations| ==> locations[i].absolute
    requires |runs| == |locations|
    modifies fs
    ensures fs.Valid() && KeepsKinds(old(fs.entries), fs.entries)
    ensures ChangedOnly(old(fs.entries), fs.entries, ZipTargets(locations), locations)
    ensures AllPlaceable(old(fs.entries), fs.denied, sample, locations, ZipTargets(locations)) ==> r.Success?
    ensures r.Success? ==>
      var zips := ZipTargets(locations);
      && |r.value.verdicts| <= |zips| && Judged(zips, runs, r.value.verdicts)
      && (r.value.error.None? <==> |r.value.verdicts| == |zips|)
      && (r.value.error.Some? ==>
            Outcome(runs[|r.value.verdicts|], zips[|r.value.verdicts|]) == Failure(r.value.error.value))
  {
    ghost var ready := AllPlaceable(fs.entries, fs.denied, sample, locations, ZipTargets(locations));
    var prepared := PrepareTestZips(fs, locations, sample, ready);
    if prepared.Failure? {
      return Failure(prepared.error);
    }
    var report := TestPathResolution(prepared.value, runs);
    r := Success(report);
  }
}

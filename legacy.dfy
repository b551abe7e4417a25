/**
 * The older copy of the path-resolution test (test/test1_pathResolution.js).
 * It runs the same preparation, analysis and comparison as the suite, but
 * takes its locations, its sample zip and its log from the directory of
 * the script itself instead of from the shared layout.
 */
module LegacyPathResolution {
  import opened Wrappers
  import opened Paths
  import opened RepoLayout
  import opened FileSystemModel
  import opened PathResolution

  /** `location1` and `location2` directly under the script's directory. */
  function Locations(testDir: Path): (r: seq<Path>)
    ensures |r| == 2 && Dirname(r[0]) == testDir && Dirname(r[1]) == testDir && r[0] != r[1]
    ensures forall i :: 0 <= i < |r| ==> r[i].absolute == testDir.absolute
  {
    [Child(testDir, "location1"), Child(testDir, "location2")]
  }

  /** `./sample-zip-file/sample-zip-file.zip` under the script's directory. */
  function SampleZip(testDir: Path): (p: Path)
    ensures Dirname(Dirname(p)) == testDir && |p.segments| > 0 && Basename(p) == "sample-zip-file.zip"
  {
    Child(Child(testDir, "sample-zip-file"), "sample-zip-file.zip")
  }

  /** `../logs/combined.log` resolved against the script's directory. */
  function LogPath(testDir: Path): (p: Path)
    ensures |p.segments| > 0 && Basename(p) == "combined.log"
    ensures Dirname(p) == Child(Dirname(testDir), "logs")
  {
    Child(Child(Dirname(testDir), "logs"), "combined.log")
  }

  /** For the script in `root/test`, the log is the one the layout names. */
  lemma LogIsCombinedLog(root: Path)
    ensures LogPath(Child(root, "test")) == Build(root).combinedLog
  {
    assert Dirname(Child(root, "test")) == root;
  }

  /**
   * The older test's copies never collide with the suite's: its locations
   * and its sample lie outside the suite's work and fixtures directories.
   */
  lemma LocationsApart(root: Path)
    ensures var L := Build(root);
      forall i :: 0 <= i < 2 ==>
        Locations(Child(root, "test"))[i] != L.location1 && Locations(Child(root, "test"))[i] != L.location2
    ensures SampleZip(Child(root, "test")) != Build(root).sampleZip
  {
    var t := Child(root, "test");
    var L := Build(root);
    assert |L.location1.segments| == |root.segments| + 5;
    assert |L.location2.segments| == |root.segments| + 5;
    assert |Locations(t)[0].segments| == |root.segments| + 2;
    assert |Locations(t)[1].segments| == |root.segments| + 2;
    assert Basename(Dirname(SampleZip(t))) == "sample-zip-file";
  }

  /** The zips the older test prepares: `location1/test-0.zip` and `location2/test-1.zip`. */
  lemma Targets(testDir: Path)
    ensures ZipTargets(Locations(testDir))
      == [Child(Child(testDir, "location1"), "test-0.zip"), Child(Child(testDir, "location2"), "test-1.zip")]
  {
    assert ZipName(0) == "test-0.zip" && ZipName(1) == "test-1.zip";
  }

  /**
   * `testPathResolution` of the older script: the shared test run on the
   * script's own locations and sample.
   */
  method LegacyPathResolutionTest(fs: FileSystem, testDir: Path, runs: seq<Run>) returns (r: Result<Report, Errno>)
    requires fs.Valid() && testDir.absolute && |runs| == 2
    modifies fs
    ensures fs.Valid() && KeepsKinds(old(fs.entries), fs.entries)
    ensures ChangedOnly(old(fs.entries), fs.entries, ZipTargets(Locations(testDir)), Locations(testDir))
    ensures AllPlaceable(old(fs.entries), fs.denied, SampleZip(testDir), Locations(testDir), ZipTargets(Locations(testDir)))
      ==> r.Success?
    ensures r.Success? ==>
      var zips := [Child(Child(testDir, "location1"), "test-0.zip"), Child(Child(testDir, "location2"), "test-1.zip")];
      && |r.value.verdicts| <= 2 && Judged(zips, runs, r.value.verdicts)
      && (r.value.error.None? <==> |r.value.verdicts| == 2)
      && (r.value.error.Some? ==>
            Outcome(runs[|r.value.verdicts|], zips[|r.value.verdicts|]) == Failure(r.value.error.value))
  {
    Targets(testDir);
    r := PathResolutionTest(fs, Locations(testDir), SampleZip(testDir), runs);
  }
}

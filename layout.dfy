/** The `PATHS` constants of test/modules/paths.js, built from the repository root. */
module RepoLayout {
  import opened Paths

  datatype Layout = Layout(
    root: Path,
    logs: Path,
    combinedLog: Path,
    errorLog: Path,
    location1: Path,
    location2: Path,
    textFile: Path,
    sampleZip: Path)

  /** `path.join(__dirname, '../..')` for the absolute directory of the modules folder. */
  function RootDir(modulesDir: Path): (root: Path)
    ensures root.absolute == modulesDir.absolute
    ensures |modulesDir.segments| >= 2 ==>
      Join(root, Path(false, modulesDir.segments[|modulesDir.segments| - 2..])) == modulesDir
  {
    var r := Dirname(Dirname(modulesDir));
    if |modulesDir.segments| >= 2 then
      assert modulesDir.segments == r.segments + modulesDir.segments[|modulesDir.segments| - 2..];
      r
    else r
  }

  /** The work directory that holds both test locations. */
  function WorkDir(root: Path): Path
  {
    Join(root, Path(false, ["test", "suites", "path-resolution", "work"]))
  }

  /** The layout under `root`, with the relations the helpers rely on. */
  function Build(root: Path): (L: Layout)
    ensures L.root == root
    ensures Dirname(L.logs) == root && |L.logs.segments| > 0 && Basename(L.logs) == "logs"
    ensures Dirname(L.combinedLog) == L.logs && Dirname(L.errorLog) == L.logs
    ensures L.combinedLog != L.errorLog
    ensures Dirname(L.location1) == WorkDir(root) && Dirname(L.location2) == WorkDir(root)
    ensures L.location1 != L.location2
    ensures Dirname(L.textFile) == root && |L.textFile.segments| > 0 && Basename(L.textFile) == "Text1.txt"
    ensures Dirname(Dirname(L.sampleZip)) == Join(root, Path(false, ["test"]))
    ensures |Dirname(L.sampleZip).segments| > 0 && Basename(Dirname(L.sampleZip)) == "fixtures"
  {
    var logs := Child(root, "logs");
    assert Join(root, Path(false, ["test", "fixtures"])) == Child(Join(root, Path(false, ["test"])), "fixtures");
    var work := WorkDir(root);
    var fixtures := Join(root, Path(false, ["test", "fixtures"]));
    Layout(
      root,
      logs,
      Child(logs, "combined.log"),
      Child(logs, "error.log"),
      Child(work, "location1"),
      Child(work, "location2"),
      Child(root, "Text1.txt"),
      Child(fixtures, "sample-zip-file.zip"))
  }
}

/**
 * The `HELPERS` object of test/modules/helpers.js: checking the work
 * folder of the path-resolution test, deleting a test file, creating a
 * directory, and locating a document in the output folder. Each operation
 * is a method on the file system and a function that specifies it.
 */
module Helpers {
  import opened Wrappers
  import opened Strings
  import opened Paths
  import opened RepoLayout
  import opened FileSystemModel

  /** The `WARNINGS` constants of test/modules/warnings.js. */
  const FoldersMissing: string := "Warning: No Test1 path folders... Run \"npm run path\" to test paths."
  const FoldersEmpty: string := "Warning: Test1 path folders are empty... Run \"npm run path\" to test paths."

  const MissingOutputFolder: string := "OUTPUT_FOLDER environment variable is not defined in .env file"
  const DefaultDocx: string := "Doc1.docx"

  /** The root the helpers log against: the parent of the logs directory. */
  function HelpersRoot(root: Path): (r: Path)
    ensures r == root
  {
    Dirname(Build(root).logs)
  }

  // ---------------------------------------------------------------------
  // validateTest1TextFiles

  /** `true`, or one of the two warnings. */
  datatype Status = Ready | Warning(message: string)

  /** What the check of the first work location resolves to, or the error it rethrows. */
  function Validation(m: map<Path, Node>, denied: set<Path>, location1: Path): (r: Result<Status, Errno>)
    ensures r.Failure? ==> r.error != ENOENT
    ensures r.Success? ==> r.value == Ready || r.value == Warning(FoldersMissing) || r.value == Warning(FoldersEmpty)
  {
    match Lookup(m, denied, location1)
    case Failure(e) => if e == ENOENT then Success(Warning(FoldersMissing)) else Failure(e)
    case Success(_) =>
      match ListDir(m, denied, location1)
      case Failure(e) => if e == ENOENT then Success(Warning(FoldersMissing)) else Failure(e)
      case Success(names) => if |names| == 0 then Success(Warning(FoldersEmpty)) else Success(Ready)
  }

  /**
   * The three documented cases and the rethrown errors, each stated by
   * what the location is.
   */
  lemma ValidationCases(m: map<Path, Node>, denied: set<Path>, location1: Path)
    ensures Validation(m, denied, location1) == Success(Warning(FoldersMissing))
        <==> Lookup(m, denied, location1) == Failure(ENOENT)
    ensures Validation(m, denied, location1) == Success(Warning(FoldersEmpty))
        <==> Lookup(m, denied, location1) == Success(Dir([]))
    ensures Validation(m, denied, location1) == Success(Ready)
        <==> exists names :: Lookup(m, denied, location1) == Success(Dir(names)) && |names| > 0
    ensures Validation(m, denied, location1).Failure?
        <==> || (Lookup(m, denied, location1).Failure? && Lookup(m, denied, location1).error != ENOENT)
             || (Lookup(m, denied, location1).Success? && Lookup(m, denied, location1).value.File?)
    ensures Validation(m, denied, location1).Failure? ==>
      Validation(m, denied, location1).error
        == if Lookup(m, denied, location1).Failure? then Lookup(m, denied, location1).error else ENOTDIR
  {
    assert |FoldersMissing| != |FoldersEmpty|;
    match Lookup(m, denied, location1)
    case Failure(e) =>
    case Success(File(_)) =>
    case Success(Dir(names)) =>
      if |names| > 0 {
        assert Lookup(m, denied, location1) == Success(Dir(names));
      }
  }

  /** `validateTest1TextFiles`: reads the file system and changes nothing. */
  method ValidateTest1TextFiles(fs: FileSystem, location1: Path) returns (r: Result<Status, Errno>)
    ensures r == Validation(fs.entries, fs.denied, location1)
  {
    var accessed := fs.Access(location1);
    if accessed.Failure? {
      // the outer catch
      if accessed.error == ENOENT {
        return Success(Warning(FoldersMissing));
      }
      return Failure(accessed.error);
    }
    var files := fs.Readdir(location1);
    if files.Failure? {
      // rethrown by the inner catch, then handled by the outer one
      if files.error == ENOENT {
        return Success(Warning(FoldersMissing));
      }
      return Failure(files.error);
    }
    if |files.value| == 0 {
      return Success(Warning(FoldersEmpty));
    }
    r := Success(Ready);
  }

  // ---------------------------------------------------------------------
  // deleteFileIfExists

  /** The `root\` prefix the messages carry for the second test. */
  function MessagePrefix(kind: string): string
  {
    if kind == "test2" then "root\\" else ""
  }

  function DeletedMessage(root: Path, target: Path, kind: string): string
  {
    "Deleted file: " + MessagePrefix(kind) + RelativeText(root, target)
  }

  function NotFoundMessage(root: Path, filePath: Path, kind: string): string
  {
    "File does not exist: " + MessagePrefix(kind) + RelativeText(root, filePath)
  }

  /**
   * The path that is deleted: `filePath` itself, or for the first test the
   * first entry its directory lists. `path.join(dir, files[0])` on an empty
   * listing throws a type error.
   */
  function DeleteTarget(m: map<Path, Node>, denied: set<Path>, filePath: Path, kind: string): (r: Result<Path, Errno>)
    ensures kind != "test1" ==> r == Success(filePath)
    ensures kind == "test1" && r.Success? ==>
      exists names :: Lookup(m, denied, filePath) == Success(Dir(names)) && |names| > 0
        && r.value == Child(filePath, names[0])
    ensures kind == "test1" && Lookup(m, denied, filePath) == Success(Dir([])) ==> r == Failure(InvalidArgType)
  {
    if kind != "test1" then Success(filePath)
    else
      match ListDir(m, denied, filePath)
      case Failure(e) => Failure(e)
      case Success(names) =>
        if |names| == 0 then Failure(InvalidArgType) else Success(Child(filePath, names[0]))
  }

  /** The `catch` block: a missing file is reported, anything else rethrown. */
  function Caught(e: Errno, root: Path, filePath: Path, kind: string): Result<string, Errno>
  {
    if e == ENOENT then Success(NotFoundMessage(root, filePath, kind)) else Failure(e)
  }

  /** The logged message or the rethrown error of `deleteFileIfExists`, and the new tree. */
  function Delete(m: map<Path, Node>, denied: set<Path>, root: Path, filePath: Path, kind: string)
    : (r: (Result<string, Errno>, map<Path, Node>))
    ensures r.0.Failure? ==> r.0.error != ENOENT && r.1 == m
    ensures r.1.Keys <= m.Keys
  {
    match DeleteTarget(m, denied, filePath, kind)
    case Failure(e) => (Caught(e, root, filePath, kind), m)
    case Success(target) =>
      match Lookup(m, denied, target)
      case Failure(e) => (Caught(e, root, filePath, kind), m)
      case Success(Dir(_)) => (Caught(EPERM, root, filePath, kind), m)
      case Success(File(_)) =>
        if |target.segments| == 0 then (Caught(ENOENT, root, filePath, kind), m)
        else (Success(DeletedMessage(root, target, kind)), Unlinked(m, target))
  }

  /**
   * A delete changes the tree exactly when its target resolves to a file;
   * it then removes that file alone, which no longer resolves, and reports
   * it. Otherwise the tree is as it was and the call reports the missing
   * `filePath` or rethrows. The tree stays well formed either way.
   */
  lemma DeleteEffect(m: map<Path, Node>, denied: set<Path>, root: Path, filePath: Path, kind: string)
    requires WellFormed(m, denied)
    ensures var (res, m2) := Delete(m, denied, root, filePath, kind);
      var target := DeleteTarget(m, denied, filePath, kind);
      && WellFormed(m2, denied)
      && (m2 != m <==> target.Success? && Lookup(m, denied, target.value).Success?
                       && Lookup(m, denied, target.value).value.File?)
      && (m2 != m ==> && |target.value.segments| > 0 && m2 == Unlinked(m, target.value)
                      && m2.Keys == m.Keys - {target.value}
                      && Lookup(m2, denied, target.value) == Failure(ENOENT)
                      && res == Success(DeletedMessage(root, target.value, kind)))
      && (m2 == m ==> res.Failure? || res == Success(NotFoundMessage(root, filePath, kind)))
  {
    match DeleteTarget(m, denied, filePath, kind)
    case Failure(e) =>
    case Success(t) =>
      match Lookup(m, denied, t)
      case Failure(e) =>
      case Success(Dir(_)) =>
      case Success(File(_)) =>
        UnlinkedWellFormed(m, denied, t);
        LookupSuccess(m, denied, t);
        assert t in m && t !in Unlinked(m, t);
  }

  /**
   * The outcomes of a delete of `filePath` itself, stated by what it
   * resolves to: missing is reported, a file is deleted, a directory is
   * `EPERM`, and any other lookup error is rethrown as it is.
   */
  lemma DeleteOutcomes(m: map<Path, Node>, denied: set<Path>, root: Path, filePath: Path, kind: string)
    requires WellFormed(m, denied) && kind != "test1"
    ensures Delete(m, denied, root, filePath, kind).0 == Success(NotFoundMessage(root, filePath, kind))
        <==> Lookup(m, denied, filePath) == Failure(ENOENT)
    ensures Delete(m, denied, root, filePath, kind).0 == Success(DeletedMessage(root, filePath, kind))
        <==> Lookup(m, denied, filePath).Success? && Lookup(m, denied, filePath).value.File?
    ensures Delete(m, denied, root, filePath, kind).0 == Failure(EPERM)
        <==> Lookup(m, denied, filePath).Success? && Lookup(m, denied, filePath).value.Dir?
    ensures Lookup(m, denied, filePath).Failure? && Lookup(m, denied, filePath).error != ENOENT ==>
      Delete(m, denied, root, filePath, kind).0 == Failure(Lookup(m, denied, filePath).error)
    ensures Delete(m, denied, root, filePath, kind).0.Failure? && Delete(m, denied, root, filePath, kind).0.error != EPERM ==>
      Lookup(m, denied, filePath) == Failure(Delete(m, denied, root, filePath, kind).0.error)
  {
    assert "Deleted file: "[0] != "File does not exist: "[0];
    match Lookup(m, denied, filePath)
    case Failure(e) =>
      assert NotFoundMessage(root, filePath, kind)[0] != DeletedMessage(root, filePath, kind)[0];
    case Success(Dir(_)) =>
    case Success(File(_)) =>
      UnlinkedWellFormed(m, denied, filePath);
  }

  /**
   * The outcomes of a delete for the first test, whose target is the first
   * entry `filePath` lists: a missing `filePath` is reported under its own
   * name, an empty listing is a type error, any other listing error is
   * rethrown, and a listed entry is deleted when it is a file.
   */
  lemma DeleteFirstEntryOutcomes(m: map<Path, Node>, denied: set<Path>, root: Path, filePath: Path)
    requires WellFormed(m, denied)
    ensures Delete(m, denied, root, filePath, "test1").0 == Success(NotFoundMessage(root, filePath, "test1"))
        <==> ListDir(m, denied, filePath) == Failure(ENOENT)
    ensures Delete(m, denied, root, filePath, "test1").0 == Failure(InvalidArgType)
        <==> ListDir(m, denied, filePath) == Success([])
    ensures ListDir(m, denied, filePath).Failure? && ListDir(m, denied, filePath).error != ENOENT ==>
      Delete(m, denied, root, filePath, "test1").0 == Failure(ListDir(m, denied, filePath).error)
    ensures ListDir(m, denied, filePath).Success? && |ListDir(m, denied, filePath).value| > 0 ==>
      var t := Child(filePath, ListDir(m, denied, filePath).value[0]);
      && (Delete(m, denied, root, filePath, "test1").0 == Success(DeletedMessage(root, t, "test1"))
          <==> Lookup(m, denied, t).Success? && Lookup(m, denied, t).value.File?)
      && (Delete(m, denied, root, filePath, "test1").0 == Failure(EPERM)
          <==> Lookup(m, denied, t).Success? && Lookup(m, denied, t).value.Dir?)
      && (Lookup(m, denied, t).Failure? <==> Delete(m, denied, root, filePath, "test1").0 == Failure(EACCES))
  {
    match ListDir(m, denied, filePath)
    case Failure(e) =>
    case Success(names) =>
      if |names| > 0 {
        var t := Child(filePath, names[0]);
        ListedEntryResolves(m, denied, filePath, names[0]);
        assert NotFoundMessage(root, filePath, "test1")[0] != DeletedMessage(root, t, "test1")[0];
        if Lookup(m, denied, t).Success? && Lookup(m, denied, t).value.File? {
          UnlinkedWellFormed(m, denied, t);
        }
      }
  }

  /** Deleting the same file twice: the second call reports that it does not exist. */
  lemma DeleteTwice(m: map<Path, Node>, denied: set<Path>, root: Path, filePath: Path, kind: string)
    requires WellFormed(m, denied) && kind != "test1"
    requires Lookup(m, denied, filePath).Success? && Lookup(m, denied, filePath).value.File?
    ensures var m2 := Delete(m, denied, root, filePath, kind).1;
      Delete(m2, denied, root, filePath, kind) == (Success(NotFoundMessage(root, filePath, kind)), m2)
  {
    UnlinkedWellFormed(m, denied, filePath);
  }

  /** `deleteFileIfExists(filePath, typeOfTest)`: returns the message it logs. */
  method DeleteFileIfExists(fs: FileSystem, root: Path, filePath: Path, kind: string) returns (r: Result<string, Errno>)
    requires fs.Valid()
    modifies fs
    ensures fs.Valid()
    ensures (r, fs.entries) == Delete(old(fs.entries), fs.denied, root, filePath, kind)
  {
    var target := filePath;
    if kind == "test1" {
      var files := fs.Readdir(filePath);
      if files.Failure? {
        return Caught(files.error, root, filePath, kind);
      }
      if |files.value| == 0 {
        return Caught(InvalidArgType, root, filePath, kind);
      }
      target := Child(filePath, files.value[0]);
    }
    var accessed := fs.Access(target);
    if accessed.Failure? {
      return Caught(accessed.error, root, filePath, kind);
    }
    var unlinked := fs.Unlink(target);
    if unlinked.Failure? {
      return Caught(unlinked.error, root, filePath, kind);
    }
    r := Success(DeletedMessage(root, target, kind));
  }

  // ---------------------------------------------------------------------
  // ensureDirectoryExists

  function CreatedMessage(root: Path, p: Path): string
  {
    "Created directory: " + RelativeText(root, p)
  }

  /** The message `ensureDirectoryExists` logs, if any, or its error; and the new tree. */
  function Ensure(m: map<Path, Node>, denied: set<Path>, root: Path, p: Path)
    : (r: (Result<Option<string>, Errno>, map<Path, Node>))
    ensures r.0.Failure? ==> r.0.error != ENOENT && r.1 == m
    ensures m.Keys <= r.1.Keys
  {
    match Lookup(m, denied, p)
    case Success(_) => (Success(None), m)
    case Failure(e) =>
      if e == ENOENT then (Success(Some(CreatedMessage(root, p))), WithDirs(m, p))
      else (Failure(e), m)
  }

  /**
   * After a successful call the path resolves; the tree only grows; a
   * missing directory is created empty, with its message; an existing path
   * or any other error leaves the tree as it was.
   */
  lemma EnsureEffect(m: map<Path, Node>, denied: set<Path>, root: Path, p: Path)
    requires WellFormed(m, denied) && p.absolute
    ensures var (res, m2) := Ensure(m, denied, root, p);
      && WellFormed(m2, denied) && Extends(m, m2)
      && (res.Success? <==> Lookup(m2, denied, p).Success?)
      && (res.Success? && res.value.Some? <==> Lookup(m, denied, p) == Failure(ENOENT))
      && (res.Success? && res.value.Some? ==> Lookup(m2, denied, p) == Success(Dir([])))
      && (Lookup(m, denied, p).Success? ==> res == Success(None) && m2 == m)
      && (Lookup(m, denied, p).Failure? && Lookup(m, denied, p).error != ENOENT ==>
            res == Failure(Lookup(m, denied, p).error) && m2 == m)
  {
    match Lookup(m, denied, p)
    case Success(_) =>
    case Failure(e) =>
      if e == ENOENT {
        WithDirsCreates(m, denied, p);
      }
  }

  /** A second call finds the directory and neither logs nor changes anything. */
  lemma EnsureIdempotent(m: map<Path, Node>, denied: set<Path>, root: Path, p: Path)
    requires WellFormed(m, denied) && p.absolute
    requires Ensure(m, denied, root, p).0.Success?
    ensures var m2 := Ensure(m, denied, root, p).1;
      Ensure(m2, denied, root, p) == (Success(None), m2)
  {
    EnsureEffect(m, denied, root, p);
  }

  /** `ensureDirectoryExists(directoryPath)`: returns the message it logs, if any. */
  method EnsureDirectoryExists(fs: FileSystem, root: Path, p: Path) returns (r: Result<Option<string>, Errno>)
    requires fs.Valid() && p.absolute
    modifies fs
    ensures fs.Valid()
    ensures (r, fs.entries) == Ensure(old(fs.entries), fs.denied, root, p)
  {
    var accessed := fs.Access(p);
    if accessed.Success? {
      return Success(None);
    }
    if accessed.error != ENOENT {
      return Failure(accessed.error);
    }
    // a recursive mkdir of a path that does not resolve cannot fail here
    var _ := fs.MakeDirectory(p);
    r := Success(Some(CreatedMessage(root, p)));
  }

  // ---------------------------------------------------------------------
  // getDocxPath

  /** The file name argument, with its default. */
  function DocxName(filename: Option<string>): string
  {
    match filename
    case None => DefaultDocx
    case Some(f) => f
  }

  /** `OUTPUT_FOLDER`: used as it is when absolute, otherwise taken from the root. */
  function OutputFolder(root: Path, value: string): (f: Path)
    ensures Parse(value).absolute ==> f == Parse(value)
    ensures !Parse(value).absolute ==>
      f.absolute == root.absolute && Relative(root, f) == Parse(value).segments
  {
    var v := Parse(value);
    if v.absolute then v
    else
      RelativeFromAncestor(root, Join(root, v));
      Join(root, v)
  }

  /**
   * `getDocxPath(filename)` given the `OUTPUT_FOLDER` setting `env`: an
   * unset or empty setting is an error; otherwise the file in the folder.
   */
  function GetDocxPath(root: Path, env: Option<string>, filename: Option<string>): (r: Result<Path, string>)
    ensures r.Failure? <==> env == None || env == Some("")
    ensures r.Failure? ==> r.error == MissingOutputFolder
    ensures r.Success? && IsName(DocxName(filename)) ==>
      && |r.value.segments| > 0
      && Dirname(r.value) == OutputFolder(root, env.value)
      && Basename(r.value) == DocxName(filename)
  {
    match env
    case None => Failure(MissingOutputFolder)
    case Some(value) =>
      if value == "" then Failure(MissingOutputFolder)
      else
        var name := DocxName(filename);
        assert IsName(name) ==> Parse(name) == Path(false, [name]) by {
          if IsName(name) { ParseName(name); }
        }
        Success(Join(OutputFolder(root, value), Parse(name)))
  }

  /** A single name parses to itself. */
  lemma ParseName(name: string)
    requires IsName(name)
    ensures Parse(name) == Path(false, [name])
  {
    ParseRender(Path(false, [name]));
  }
}

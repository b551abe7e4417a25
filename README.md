# book-extractor test harness, modelled in Dafny

book-extractor unpacks a book (a zip of documents) next to the zip. Its
test harness checks two things. It checks that the extractor puts files in
the directory of the zip it was given. It also keeps the shared test data
in order: the work folders, the sample zip and the generated documents.
This project models the core of that harness and proves what it promises:

- `test/modules/paths.js`: the `PATHS` layout of the repository
  (`layout.dfy`).
- `test/modules/helpers.js`: `validateTest1TextFiles`,
  `deleteFileIfExists`, `ensureDirectoryExists` and `getDocxPath`
  (`helpers.dfy`). These run over a model of the file-system calls they
  make: `access`, `readdir`, `unlink`, `mkdir` with `recursive` and
  `copyFile` (`filesystem.dfy`).
- `test/suites/path-resolution/test.js`, in `suite.dfy`:
  - `prepareTestZips` copies the sample zip into each work location as
    `test-<index>.zip`.
  - The log analysis of `runExtractBookAndAnalyzeLogs` (`logparse.dfy`)
    works like this. It splits the combined log at `zipFilePath:`. It
    selects the first section that mentions the zip. It matches
    `Extracted non-docx file: .* to (.*)` in that section. The result is
    the captured directory or one of three error messages.
  - The loop of `testPathResolution` compares each captured directory
    with `path.dirname` of the zip.
- `test/test1_pathResolution.js` is the older copy of the same test
  (`legacy.dfy`). It has its own locations, sample and log path.

Paths are Windows paths (separator `\`), modelled as an absolute flag plus
a sequence of names (`paths.dfy`). `path.join`, `path.dirname`,
`path.relative` and `path.isAbsolute` are functions over that value. The
JavaScript string operations used are `split`, `includes`, template
numbers and the regular expression. They are modelled in `strings.dfy`
and `logparse.dfy` with their JavaScript meaning:
- `split` cuts at the leftmost non-overlapping occurrences.
- An empty string is falsy.
- In the regular expression, `.` stops at `\n`, `\r`, U+2028 and U+2029.
  The first `.*` is greedy, so the capture starts after the last ` to `
  on the matching line.

The file system is a map from paths to nodes (a file with its bytes, or a
directory with its listing), plus a set of paths that access is denied to.
A lookup walks from the root. It gives `EACCES` at a denied path, `ENOTDIR`
below a file and `ENOENT` for a missing entry. Every operation keeps the
map well formed: each entry is listed by its parent directory and each
listed name exists.

The extractor itself is not modelled. Each run is given as data: its exit
code and the text the combined log holds afterwards.

## Model

| member | source | states |
|---|---|---|
| RepoLayout.RootDir | test/modules/paths.js:9-12 | The root is two levels above the modules directory: joining those two names back onto it gives the modules directory. |
| RepoLayout.Build | test/modules/paths.js:15-33 | `logs` is a child of the root. Both logs live in `logs` and are distinct. Both work locations share the `test/suites/path-resolution/work` parent and are distinct. The text file is at the root. The sample zip is in `test/fixtures`. |
| Helpers.HelpersRoot | test/modules/helpers.js:16-18 | `path.dirname(PATHS.logs)` is exactly the repository root. |
| Paths.Dirname | test/modules/helpers.js:18 | The parent keeps absoluteness; a path is its parent's child named by its last segment; the root is its own parent. |
| Paths.Parse | test/modules/helpers.js:133-135 | Parsing a path string gives a canonical path, absolute exactly when the string starts with a separator. |
| Paths.ParseRender | test/modules/helpers.js:133-137 | Parsing the rendering of a canonical path gives the path back. |
| Paths.NamesOfJoined | test/modules/helpers.js:133-137 | Splitting names joined by the separator gives back the names. |
| Paths.CommonPrefixLength | test/modules/helpers.js:78 | The result is the length of the longest common prefix: equal up to it and different right after it. |
| Paths.RelativeFromAncestor | test/modules/helpers.js:78-80 | From an ancestor, `path.relative` is the remaining names, and joining them back onto the ancestor gives the target. |
| Paths.RelativeShape | test/modules/helpers.js:85 | `path.relative` starts with one `..` for each segment of the source past the common prefix. Then come exactly the remaining segments of the target. Its length is the sum of the two counts, and it is empty for the same path. |
| Paths.Relative | test/modules/helpers.js:78-85 | For a normalised target every segment of `path.relative` is a name (`..` included), so its text can be read back. |
| Paths.RelativeText | test/modules/helpers.js:78-87 | Reading back the text of `path.relative` gives its segments. The text is empty when there are no segments. |
| Paths.Join | test/modules/helpers.js:135-137 | `path.join` puts the second path under the first: the first is an ancestor of (or equal to) the result. Joining normalised paths gives a normalised path. |
| Paths.Render | test/suites/path-resolution/test.js:93 | The text of an absolute path is never empty and starts with a separator. The text of a normalised relative path is never empty and does not start with a separator. |
| Strings.Split | test/suites/path-resolution/test.js:60 | `split` gives at least one piece, and no piece contains the separator. |
| Strings.JoinSplit | test/suites/path-resolution/test.js:60 | Joining the pieces of a `split` with the separator gives back the text. |
| Strings.SplitJoin | test/suites/path-resolution/test.js:60 | For a separator that overlaps no shift of itself, splitting pieces joined by it (none containing it) gives back the pieces. |
| Strings.IndexOf | test/suites/path-resolution/test.js:63 | The first occurrence at or after `from`: it occurs there, nowhere before, and `None` means nowhere. |
| Strings.NatToString | test/suites/path-resolution/test.js:34 | A template number is a non-empty string of decimal digits. |
| Strings.DecimalRoundTrip | test/suites/path-resolution/test.js:34 | Reading back the decimal digits of a number gives the number. |
| Strings.NatToStringInjective | test/suites/path-resolution/test.js:34 | Different numbers print differently. |
| FileSystemModel.Lookup | test/modules/helpers.js:34 | A lookup fails only with `ENOENT`, `EACCES` or `ENOTDIR`. |
| FileSystemModel.LookupKept | test/suites/path-resolution/test.js:33-35 | A path that resolved before a change that keeps every entry's kind resolves afterwards to its new node. |
| FileSystemModel.FileFoundBefore | test/suites/path-resolution/test.js:33 | A file that resolves after creating directories already resolved to the same node before. |
| FileSystemModel.WithDirs | test/modules/helpers.js:107 | Creating a directory with its parents keeps every entry. Each new entry is a directory, and it is the path itself or one of its ancestors. |
| FileSystemModel.WithDirsCreates | test/modules/helpers.js:107 | `mkdir` with `recursive`, from a missing path, keeps the map well formed. It only grows the map: files stay, listings only gain names. Afterwards the path resolves to an empty directory. |
| FileSystemModel.FileSystem.Access | test/modules/helpers.js:34 | `access` succeeds exactly when the path resolves and fails with the lookup's error otherwise; nothing changes. |
| FileSystemModel.ListDir | test/modules/helpers.js:36 | A listing succeeds exactly when the path resolves to a directory. |
| FileSystemModel.FileSystem.Readdir | test/modules/helpers.js:36 | `readdir` returns the listing of the current state and changes nothing. |
| FileSystemModel.Unlinked | test/modules/helpers.js:74 | Unlinking drops exactly the path's entry. Every other entry except the parent is unchanged, and the parent's listing loses the name. |
| FileSystemModel.FileSystem.Unlink | test/modules/helpers.js:74 | `unlink` removes a file (`EPERM` on a directory, the lookup's error otherwise), keeping the map well formed. |
| FileSystemModel.FileSystem.MakeDirectory | test/suites/path-resolution/test.js:33 | `mkdir` with `recursive` succeeds on an existing directory without change. It gives `EEXIST` on a file. On a missing path it creates the path and its missing parents: only directories, each the path or one of its ancestors. Any other lookup error is passed on and changes nothing. |
| FileSystemModel.ChangedOnlyByMkdir | test/suites/path-resolution/test.js:33 | A `mkdir` that keeps every entry and adds only directories on the way to `dir` rewrites no file. |
| FileSystemModel.ChangedOnlyByCopy | test/suites/path-resolution/test.js:35 | A `copyFile` that adds at most the target and keeps the other files rewrites nothing but the target. |
| FileSystemModel.ChangedOnlyStep | test/suites/path-resolution/test.js:32-37 | Two changes in a row change only what either of them may change: files outside both written lists keep their bytes, and each new entry is written or a directory on the way to one of the locations. |
| FileSystemModel.ListedEntryResolves | test/modules/helpers.js:67-70 | A name listed by a directory names an entry whose parent is that directory. It resolves to that entry unless it is denied (`EACCES`). |
| FileSystemModel.ChildOfCreatedMissing | test/suites/path-resolution/test.js:33-35 | After `mkdir` creates a missing directory, every child of it is still missing. |
| FileSystemModel.StillFree | test/suites/path-resolution/test.js:32-37 | A turn that could place its copy at the start still can after the earlier turns: they wrote only earlier targets and created only directories on the way to their locations, and no target lies on the way to a location. |
| FileSystemModel.MissingAfterDirs | test/suites/path-resolution/test.js:33 | A path that was missing is still missing, or is now a directory, after changes that keep every kind and add only directories on the way to it. |
| FileSystemModel.FreeAfterMkdir | test/suites/path-resolution/test.js:33-35 | After `mkdir` of the location, a placeable target is free in an existing directory and the sample resolves as before. |
| FileSystemModel.FileSystem.CopyFile | test/suites/path-resolution/test.js:35 | `copyFile` succeeds exactly when the source is a file and the target is a file or a missing child of a directory. Its new state is then given in full: an overwrite replaces only the target's node, and a creation adds the target at the end of its parent's listing, changing nothing else. Nothing changes kind. |
| FileSystemModel.CopyOverwrites | test/suites/path-resolution/test.js:35 | Copying a file over a file keeps the map well formed, keeps every kind, and changes only the target. The target then resolves to the source's node. |
| FileSystemModel.CopyCreates | test/suites/path-resolution/test.js:35 | Copying a file to a missing child of a directory adds exactly that entry, keeps the map well formed and every kind, and leaves the other files alone. The target then resolves. |
| Helpers.Validation | test/modules/helpers.js:32-52 | A missing location is never an error: a failure is never `ENOENT`. A success is "ready" or one of the two warnings. |
| Helpers.ValidationCases | test/modules/helpers.js:32-52 | These are iff statements. A missing location gives the "folders missing" warning. An empty directory gives the "folders empty" warning. A non-empty directory is ready. Any other access or read error is rethrown with its code (`ENOTDIR` when the location is a file). |
| Helpers.ValidateTest1TextFiles | test/modules/helpers.js:32-52 | The method returns the validation of the current file system and changes nothing. |
| Helpers.DeleteTarget | test/modules/helpers.js:64-70 | Outside test1 the target is the given path. In test1 it is a child of the given directory named by its first listing entry. An empty listing fails with `ERR_INVALID_ARG_TYPE`. |
| Helpers.Delete | test/modules/helpers.js:62-93 | A missing file is reported, never thrown: an error is never `ENOENT`, and an error leaves the map as it was. Deleting never adds an entry. |
| Helpers.DeleteEffect | test/modules/helpers.js:62-93 | Deleting keeps the map well formed, for every kind. The map changes exactly when the target resolves to a file. In that case the new map is the old one with exactly that entry unlinked: the parent's listing loses the name and every other entry keeps its node. The target then no longer resolves (`ENOENT`), and the deleted message names it. When nothing changes, the result is an error or the "File does not exist" message. |
| Helpers.DeleteOutcomes | test/modules/helpers.js:62-93 | These are iff statements, for every kind but test1. A missing path reports "File does not exist". A file is deleted and reported. A directory is rethrown as `EPERM`. Any other lookup error (`EACCES`, `ENOTDIR`) is rethrown as it is, and every error other than `EPERM` is such a lookup error. |
| Helpers.DeleteTwice | test/modules/helpers.js:62-93 | For every kind but test1, deleting the same file a second time reports that it does not exist and changes nothing. |
| Helpers.DeleteFirstEntryOutcomes | test/modules/helpers.js:64-93 | These are iff statements, for test1, where the target is the first entry of the given directory. A missing directory reports "File does not exist". An empty directory throws `ERR_INVALID_ARG_TYPE`. Any other listing error is rethrown. For a non-empty directory the first entry is deleted and reported exactly when it is a file. It is rethrown as `EPERM` exactly when it is a directory, and as `EACCES` exactly when it cannot be reached. |
| Helpers.DeleteFileIfExists | test/modules/helpers.js:62-93 | The method's message or error and its new file system are those of `Delete` on the old one, and the map stays well formed. |
| Helpers.Ensure | test/modules/helpers.js:102-113 | An error is never `ENOENT`, and an error leaves the map as it was. Ensuring never removes an entry. |
| Helpers.EnsureEffect | test/modules/helpers.js:102-113 | Ensuring keeps the map well formed and only grows it. It succeeds exactly when the path then resolves. A message is returned exactly when the path was missing, and the path is then an empty directory. An existing path returns no message and leaves the map as it was. Any access error other than `ENOENT` is rethrown with that code, and the map is unchanged. |
| Helpers.EnsureIdempotent | test/modules/helpers.js:102-113 | After a successful ensure, a second one succeeds silently and changes nothing. |
| Helpers.EnsureDirectoryExists | test/modules/helpers.js:102-113 | The method's result and new file system are those of `Ensure` on the old one. |
| Helpers.OutputFolder | test/modules/helpers.js:133-135 | An absolute `OUTPUT_FOLDER` is used as is. A relative one is joined onto the root: it keeps the root's absoluteness, and `path.relative` from the root gives back exactly its names. |
| Helpers.GetDocxPath | test/modules/helpers.js:123-138 | It fails exactly when `OUTPUT_FOLDER` is unset or empty, with that message. Otherwise, when the file name is a single name (not empty, not `.`, no separator), the document is a child of the output folder named by it, `Doc1.docx` by default. |
| Helpers.ParseName | test/modules/helpers.js:137 | A single name parses to a one-segment relative path. |
| LogAnalysis.LineEnd | test/suites/path-resolution/test.js:66 | The result is the first line terminator at or after the start, or the end of the text; everything before it is on one line. |
| LogAnalysis.FindMatch | test/suites/path-resolution/test.js:66 | A match is found exactly when one exists. It is the leftmost start of the prefix, with the last ` to ` on that line (greedy `.*`). |
| LogAnalysis.Capture | test/suites/path-resolution/test.js:66-68 | The captured group never spans a line terminator. |
| LogAnalysis.LeftmostGreedyUnique | test/suites/path-resolution/test.js:66 | There is only one leftmost greedy match. |
| LogAnalysis.FirstContaining | test/suites/path-resolution/test.js:63 | `find` gives the first section that includes the zip path, or none when no section does. |
| LogAnalysis.SelectedUnique | test/suites/path-resolution/test.js:63 | The section `find` selects is unique. |
| Strings.Contains | test/suites/path-resolution/test.js:63 | A text includes only texts no longer than itself. |
| Strings.ContainsIndexOf | test/suites/path-resolution/test.js:63 | `includes` holds exactly when `indexOf` from the start finds an occurrence. |
| LogAnalysis.ExitMessage | test/suites/path-resolution/test.js:76 | The exit-code rejection differs from both other rejections, for every zip path. |
| LogAnalysis.NoSectionMessage | test/suites/path-resolution/test.js:73 | The no-section rejection ends with the zip path, and it differs from the no-extraction-path rejection for every zip path. |
| LogAnalysis.NoPathMessage | test/suites/path-resolution/test.js:70 | The no-extraction-path rejection ends with the zip path and is longer than it. |
| LogAnalysis.AnalyzeLog | test/suites/path-resolution/test.js:55-79 | A non-zero or missing exit code rejects with "Process exited with code ..." before any parsing, and exit code 0 never does. Every other outcome is "Could not find log section", the extraction-path error, or a non-empty single-line directory. |
| LogAnalysis.AnalyzeLogNoSection | test/suites/path-resolution/test.js:62-74 | For a non-empty zip path, "Could not find log section" is the outcome exactly when the exit code is 0 and no section includes the path. |
| LogAnalysis.AnalyzeLogNoPath | test/suites/path-resolution/test.js:63-71 | "Found log section but no extraction path" is the outcome exactly when the exit code is 0, `find` selects a non-empty section, and that section has no match with a non-empty group. |
| LogAnalysis.AnalyzeLogReports | test/test1_pathResolution.js:62-83 | The analysis succeeds exactly when the exit code is 0 and the selected, non-empty section holds a match with a non-empty group; its value is that group. |
| LogAnalysis.SectionsOfLog | test/test1_pathResolution.js:66-69 | Splitting a log built from sections with no marker in them gives back those sections. A section including the zip path, with none before it, is the one selected. |
| LogAnalysis.ExtractionLineCapture | test/test1_pathResolution.js:72-74 | An extraction line after text that ends in a line terminator and holds no `Extracted non-docx file: ` gives the leftmost greedy match. When the directory part has no ` to `, it captures exactly the rest of the line. |
| LogAnalysis.SelectedSectionResult | test/test1_pathResolution.js:71-74 | A selected section with a match and a non-empty group resolves the promise with that group. |
| LogAnalysis.RecordedDirectoryIsRecovered | test/suites/path-resolution/test.js:59-68 | When the selected section records the zip's extraction to a directory, the analysis gives exactly that directory. This needs a single-line zip without the extraction prefix, and a non-empty single-line directory without ` to `. |
| LogAnalysis.RecordIsSelected | test/suites/path-resolution/test.js:60-63 | A log made of marker-free sections joined by the marker splits back into them. The zip's own record, after sections that do not mention the zip, is the one `find` selects. |
| LogAnalysis.DirectoryWithArrowIsCutShort | test/suites/path-resolution/test.js:66 | A directory that itself contains ` to ` is captured only after its last ` to ` (`a to b` gives `b`). |
| PathResolution.ZipTargets | test/suites/path-resolution/test.js:32-36 | One target per location, in order. Target `i` is a child of location `i` named `test-<i>.zip`. |
| PathResolution.ZipNameInjective | test/suites/path-resolution/test.js:34 | Different indices give different zip names. |
| PathResolution.ZipTargetsDistinct | test/suites/path-resolution/test.js:32-36 | No two targets coincide, even if two locations are the same directory. |
| PathResolution.LayoutTargets | test/suites/path-resolution/test.js:29-37 | For the repository layout the copies are `location1\test-0.zip` and `location2\test-1.zip`. |
| PathResolution.PrepareTestZips | test/suites/path-resolution/test.js:28-40 | It succeeds when the sample is a file, each location is a directory or missing, each target in an existing location is missing or a file, and no target lies on the way to any location. The ghost flag `ready` carries this condition. On success it returns the targets, in order. The sample was a file at the start, and every copy now resolves to the sample's node. No entry changed kind, and the map stays well formed. Whether it succeeds or fails, every file other than the targets keeps its bytes. Every new entry is a target or a directory on the way to one of the locations. |
| PathResolution.PlaceCopy | test/suites/path-resolution/test.js:33-36 | One turn of the loop. It succeeds when the sample is a file and the target is free in `dir`, or `dir` is missing. The ghost flag `free` carries this condition. Only the target is written, and only directories on the way to `dir` are added. On success the sample still resolves as before, and so do the earlier copies and the new one. |
| PathResolution.PlacedFrame | test/suites/path-resolution/test.js:33-35 | A `mkdir` of `dir` followed by a `copyFile` to `target` rewrites no file but the target and adds only directories on the way to `dir`. |
| PathResolution.JudgedExtend | test/suites/path-resolution/test.js:91-103 | For any analysis, a successful analysis of the next run extends the verdicts by its comparison, keeping every verdict tied to its own zip. |
| PathResolution.TestPathResolution | test/suites/path-resolution/test.js:91-107 | Each verdict belongs to a zip whose analysis succeeded. It is true exactly when the directory equals `path.dirname` of that zip. The loop stops at the first rejection and reports its message. |
| PathResolution.Passed | test/suites/path-resolution/test.js:93-99 | For a normalised zip path, a passing directory text names exactly `path.dirname` of the zip. |
| PathResolution.Outcome | test/suites/path-resolution/test.js:55-79 | One run's analysis: a non-zero or missing exit code is rejected with the exit message. A success is a non-empty single-line directory. |
| PathResolution.RecordedRunPasses | test/suites/path-resolution/test.js:92-99 | A successful run whose log records the zip's own directory passes, when that directory has no ` to ` and zip and directory are single lines. |
| PathResolution.PathResolutionTest | test/suites/path-resolution/test.js:86-108 | Preparation and then the loop. A file-system error stops the test before any run. Otherwise the report is that of the loop over the prepared zips, and a stop names the rejection of the zip it stopped at. It succeeds under the condition of `PrepareTestZips`: the sample is a file, each location is a directory or missing (`mkdir` creates it), each target is free, and no target lies on the way to a location. Of the modelled file-system calls, only the copies and the directories on the way to the locations are written. |
| LegacyPathResolution.Locations | test/test1_pathResolution.js:33 | Two distinct locations directly under the script's directory. |
| LegacyPathResolution.SampleZip | test/test1_pathResolution.js:32 | The sample is `sample-zip-file\sample-zip-file.zip` under the script's directory. |
| LegacyPathResolution.LogPath | test/test1_pathResolution.js:12 | The log is `combined.log` in the `logs` directory next to the script's directory. |
| LegacyPathResolution.LogIsCombinedLog | test/test1_pathResolution.js:12 | For the script in `root\test`, the log is the layout's combined log. |
| LegacyPathResolution.LocationsApart | test/test1_pathResolution.js:32-33 | The older test's locations and sample are not the suite's. |
| LegacyPathResolution.Targets | test/test1_pathResolution.js:31-44 | The older test prepares `location1\test-0.zip` and `location2\test-1.zip` under its directory. |
| LegacyPathResolution.LegacyPathResolutionTest | test/test1_pathResolution.js:95-117 | The older test gives a verdict for each of its two zips that it gets through. Each verdict is tied to that zip's analysis. A stop reports the rejection of the zip it stopped at. It succeeds when its sample is a file and each of its locations is a directory or missing, with its target free. The file system stays well formed. Of the modelled file-system calls, only the two copies and the directories on the way to its locations are written. |

## Left out

- Spawning the extractor, its exit, and the `close` event are not modelled. Each run is given as its exit code (`None` for a kill by signal) and the text of the log afterwards. `clearLog` and `readFile` are therefore not modelled: the log content is an input.
- Console output is not modelled. Only the messages that decide an outcome are modelled (deleted, not found, created).
- Loading `.env` through `dotenv` is not modelled. `OUTPUT_FOLDER` is a parameter of `GetDocxPath`.
- Every file-system operation treats a relative path as missing: a lookup walks from the root only. The harness passes only absolute paths, built from the layout.
- Drive letters and UNC paths are not modelled: an absolute path starts with a separator. `path.relative`'s case-insensitive comparison on Windows and `..` normalisation in joins are not modelled either.
- `readdir` order is modelled as creation order. The real order is whatever the operating system returns.
- `mkdir` with `recursive` is modelled as all or nothing. A failure part-way, after creating some parents, is not modelled.
- Concurrency and the asynchronous scheduling of the promises are not modelled. Every step runs to completion in order.
- The directory that holds each script (`import.meta.url`) is a parameter (`modulesDir`, `testDir`).
- Helpers.EnsureDirectoryExists: requires an absolute path. The helpers are always called with paths built from the layout, and relative paths would resolve against the process's working directory, which is not modelled.
- LogAnalysis.RecordedDirectoryIsRecovered: the log line is the one `Record` builds: the zip on the marker line, then the extraction line. The extractor's real log format lives in the extractor, which is not part of this model.
- PathResolution.PrepareTestZips: its success condition is sufficient, not necessary. A run where a target lies on the way to a location is not promised to succeed, even in the orders of turns where it does. The same holds for PathResolutionTest and LegacyPathResolutionTest, which rely on it.
- LegacyPathResolution.LegacyPathResolutionTest: the older script's own copy of the analysis is the same function as the suite's, so the shared `AnalyzeLog` is used for both.
- The build-distribution and menu-integration test suites, `clearTestData`, and the warning texts' other users are not part of this model.

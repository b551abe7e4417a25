/**
 * The file system as the harness sees it through Node's `fs/promises`:
 * a map from absolute paths to files and directories, and the calls
 * `access`, `readdir`, `unlink`, `mkdir({recursive: true})` and `copyFile`.
 */
module FileSystemModel {
  import opened Wrappers
  import opened Paths

  /** A file with its bytes, or a directory with its entry names in listing order. */
  datatype Node = File(bytes: seq<bv8>) | Dir(names: seq<string>)

  /** The `error.code` values the harness can meet. */
  datatype Errno =
    | ENOENT          // no such file or directory
    | EACCES          // permission denied
    | ENOTDIR         // a path component is a file
    | EISDIR          // a directory where a file is needed
    | EPERM           // unlink of a directory on Windows
    | EEXIST          // mkdir over an existing file
    | InvalidArgType  // ERR_INVALID_ARG_TYPE from `path.join(dir, undefined)`

  /** The root of the absolute paths. */
  const Root: Path := Path(true, [])

  predicate NoDuplicates(s: seq<string>)
  {
    forall i, j :: 0 <= i < j < |s| ==> s[i] != s[j]
  }

  /** The root is a directory. */
  ghost predicate RootIsDirectory(m: map<Path, Node>)
  {
    Root in m && m[Root].Dir?
  }

  ghost predicate AllAbsolute(m: map<Path, Node>)
  {
    forall p :: p in m ==> p.absolute
  }

  /** Every entry but the root is listed by its parent directory. */
  ghost predicate ListedByParent(m: map<Path, Node>)
  {
    forall p {:trigger Dirname(p)} :: p in m && |p.segments| > 0 ==>
      Dirname(p) in m && m[Dirname(p)].Dir? && Basename(p) in m[Dirname(p)].names
  }

  ghost predicate ListingsDistinct(m: map<Path, Node>)
  {
    forall p :: p in m && m[p].Dir? ==> NoDuplicates(m[p].names)
  }

  /** Every listed name exists. */
  ghost predicate ListedExist(m: map<Path, Node>)
  {
    forall p, n :: p in m && m[p].Dir? && n in m[p].names ==> Child(p, n) in m
  }

  /**
   * The tree invariant; the paths the process may not touch are
   * existing entries.
   */
  ghost predicate WellFormed(m: map<Path, Node>, denied: set<Path>)
  {
    && RootIsDirectory(m) && AllAbsolute(m) && ListedByParent(m)
    && ListingsDistinct(m) && ListedExist(m) && denied <= m.Keys
  }

  /** No component of `p`, `p` included, is denied. */
  ghost predicate Reachable(denied: set<Path>, p: Path)
    decreases |p.segments|
  {
    p !in denied && (|p.segments| == 0 || Reachable(denied, Dirname(p)))
  }

  /**
   * How a call resolves `p`, walking from the root: the first denied
   * component gives EACCES, a file used as a directory ENOTDIR, a missing
   * component ENOENT.
   */
  function Lookup(m: map<Path, Node>, denied: set<Path>, p: Path): (r: Result<Node, Errno>)
    ensures r.Failure? ==> r.error == ENOENT || r.error == EACCES || r.error == ENOTDIR
    decreases |p.segments|
  {
    if |p.segments| == 0 then
      if p in denied then Failure(EACCES) else if p in m then Success(m[p]) else Failure(ENOENT)
    else
      match Lookup(m, denied, Dirname(p))
      case Failure(e) => Failure(e)
      case Success(File(_)) => Failure(ENOTDIR)
      case Success(Dir(_)) =>
        if p in denied then Failure(EACCES) else if p in m then Success(m[p]) else Failure(ENOENT)
  }

  /** What `fs.readdir(p)` lists. */
  function ListDir(m: map<Path, Node>, denied: set<Path>, p: Path): (r: Result<seq<string>, Errno>)
    ensures r.Success? <==> Lookup(m, denied, p).Success? && Lookup(m, denied, p).value.Dir?
  {
    match Lookup(m, denied, p)
    case Failure(e) => Failure(e)
    case Success(File(_)) => Failure(ENOTDIR)
    case Success(Dir(names)) => Success(names)
  }

  /** `s` without the occurrences of `x`. */
  function Remove(s: seq<string>, x: string): (r: seq<string>)
    ensures forall y :: y in r <==> y in s && y != x
    ensures NoDuplicates(s) ==> NoDuplicates(r)
  {
    if |s| == 0 then []
    else if s[0] == x then Remove(s[1..], x)
    else
      var rest := Remove(s[1..], x);
      assert forall y :: y in s <==> y == s[0] || y in s[1..];
      assert NoDuplicates(s) ==> s[0] !in s[1..] by {
        if NoDuplicates(s) {
          forall k | 0 <= k < |s[1..]| ensures s[1..][k] != s[0] {
            assert s[1..][k] == s[k + 1];
          }
        }
      }
      [s[0]] + rest
  }

  /** The tree after removing the entry `p`, which its parent stops listing. */
  function Unlinked(m: map<Path, Node>, p: Path): (r: map<Path, Node>)
    requires |p.segments| > 0
    ensures r.Keys == m.Keys - {p}
    ensures forall q :: q in r && q != Dirname(p) ==> r[q] == m[q]
    ensures Dirname(p) in m && m[Dirname(p)].Dir? ==>
      r[Dirname(p)] == Dir(Remove(m[Dirname(p)].names, Basename(p)))
  {
    var parent := Dirname(p);
    if parent in m && m[parent].Dir? then
      (m - {p})[parent := Dir(Remove(m[parent].names, Basename(p)))]
    else m - {p}
  }

  /** The tree after adding the new entry `p` at the end of its parent's listing. */
  function AddEntry(m: map<Path, Node>, p: Path, node: Node): (r: map<Path, Node>)
    requires |p.segments| > 0
    ensures r.Keys == m.Keys + {p, Dirname(p)}
    ensures r[p] == node
    ensures forall q :: q in m && q != Dirname(p) && q != p ==> r[q] == m[q]
  {
    var parent := Dirname(p);
    var siblings := if parent in m && m[parent].Dir? then m[parent].names else [];
    assert parent != p by { assert |parent.segments| < |p.segments|; }
    m[p := node][parent := Dir(siblings + [Basename(p)])]
  }

  /** The tree after `mkdir(p, {recursive: true})` creates every missing component. */
  function WithDirs(m: map<Path, Node>, p: Path): (r: map<Path, Node>)
    ensures m.Keys <= r.Keys
    ensures forall q {:trigger Added(q, m, r)} :: Added(q, m, r) ==> AncestorOrSelf(q, p) && r[q].Dir?
    decreases |p.segments|
  {
    if p in m || |p.segments| == 0 then m
    else
      var above := WithDirs(m, Dirname(p));
      var r := AddEntry(above, p, Dir([]));
      AncestorsOfParent(p);
      assert forall q :: Added(q, m, r) ==> q == p || q == Dirname(p) || Added(q, m, above);
      r
  }

  /** `q` is an entry of `m2` that `m` did not have. */
  predicate Added(q: Path, m: map<Path, Node>, m2: map<Path, Node>)
  {
    q in m2 && q !in m
  }

  /** `m2` keeps every entry of `m`: files unchanged, directories only gain names at the end. */
  ghost predicate Extends(m: map<Path, Node>, m2: map<Path, Node>)
  {
    forall q :: q in m ==>
      && q in m2
      && (m[q].File? ==> m2[q] == m[q])
      && (m[q].Dir? ==> m2[q].Dir? && m[q].names <= m2[q].names)
  }

  /**
   * Going from `m` to `m2` rewrote no file outside `written`, and every
   * entry it added is one of `written` or a directory on the way to one
   * of `created`.
   */
  ghost predicate ChangedOnly(m: map<Path, Node>, m2: map<Path, Node>, written: seq<Path>, created: seq<Path>)
  {
    && (forall q {:trigger Outside(q, written)} ::
          Outside(q, written) && q in m && m[q].File? ==> q in m2 && m2[q] == m[q])
    && (forall q {:trigger Added(q, m, m2)} :: Added(q, m, m2) ==>
          || q in written
          || (m2[q].Dir? && exists j :: 0 <= j < |created| && AncestorOrSelf(q, created[j])))
  }

  /** `q` is none of `written`. */
  predicate Outside(q: Path, written: seq<Path>)
  {
    q !in written
  }

  /** Two changes in a row change only what either of them may change. */
  lemma ChangedOnlyStep(m0: map<Path, Node>, m1: map<Path, Node>, m2: map<Path, Node>,
                        w1: seq<Path>, c1: seq<Path>, w2: seq<Path>, c2: seq<Path>)
    requires ChangedOnly(m0, m1, w1, c1) && ChangedOnly(m1, m2, w2, c2) && KeepsKinds(m1, m2)
    ensures ChangedOnly(m0, m2, w1 + w2, c1 + c2)
  {
    forall q | Outside(q, w1 + w2) && q in m0 && m0[q].File?
      ensures q in m2 && m2[q] == m0[q]
    {
      assert Outside(q, w1) && Outside(q, w2);
    }
    forall q | Added(q, m0, m2)
      ensures || q in w1 + w2
              || (m2[q].Dir? && exists j :: 0 <= j < |c1 + c2| && AncestorOrSelf(q, (c1 + c2)[j]))
    {
      if q in m1 {
        assert Added(q, m0, m1);
        if q !in w1 {
          var j :| 0 <= j < |c1| && AncestorOrSelf(q, c1[j]);
          assert (c1 + c2)[j] == c1[j];
        }
      } else {
        assert Added(q, m1, m2);
        if q !in w2 {
          var j :| 0 <= j < |c2| && AncestorOrSelf(q, c2[j]);
          assert (c1 + c2)[|c1| + j] == c2[j];
        }
      }
    }
  }

  /** What a change may touch can be widened to longer lists with the same beginning. */
  lemma ChangedOnlyWiden(m: map<Path, Node>, m2: map<Path, Node>,
                         w: seq<Path>, c: seq<Path>, w': seq<Path>, c': seq<Path>)
    requires ChangedOnly(m, m2, w, c)
    requires |w| <= |w'| && w'[..|w|] == w && |c| <= |c'| && c'[..|c|] == c
    ensures ChangedOnly(m, m2, w', c')
  {
    forall q | q in w
      ensures q in w'
    {
      var j :| 0 <= j < |w| && w[j] == q;
      assert w'[j] == q;
    }
    forall q | Outside(q, w') && q in m && m[q].File?
      ensures q in m2 && m2[q] == m[q]
    {
      assert Outside(q, w);
    }
    forall q | Added(q, m, m2) && q !in w'
      ensures m2[q].Dir? && exists j :: 0 <= j < |c'| && AncestorOrSelf(q, c'[j])
    {
      var j :| 0 <= j < |c| && AncestorOrSelf(q, c[j]);
      assert c'[j] == c[j];
    }
  }

  /** `mkdir -p dir` rewrites no file and adds only directories on the way to `dir`. */
  lemma ChangedOnlyByMkdir(m: map<Path, Node>, m2: map<Path, Node>, dir: Path)
    requires Extends(m, m2)
    requires forall q :: q in m2 && q !in m ==> m2[q].Dir? && AncestorOrSelf(q, dir)
    ensures ChangedOnly(m, m2, [], [dir])
  {
    forall q | Added(q, m, m2)
      ensures m2[q].Dir? && exists j :: 0 <= j < 1 && AncestorOrSelf(q, [dir][j])
    {
      assert [dir][0] == dir;
    }
  }

  /** A copy to `dst` (or no change at all) writes nothing but `dst`. */
  lemma ChangedOnlyByCopy(m: map<Path, Node>, m2: map<Path, Node>, dst: Path)
    requires m.Keys <= m2.Keys <= m.Keys + {dst}
    requires forall q :: q in m && m[q].File? && q != dst ==> m2[q] == m[q]
    ensures ChangedOnly(m, m2, [dst], [])
  {
    forall q | Added(q, m, m2)
      ensures q in [dst]
    {
    }
  }

  /** Every path of `paths` resolves to `found`. */
  ghost predicate AllResolveTo(m: map<Path, Node>, denied: set<Path>, paths: seq<Path>, found: Result<Node, Errno>)
  {
    forall j :: 0 <= j < |paths| ==> Lookup(m, denied, paths[j]) == found
  }

  /** A successful lookup finds the entry itself, along a path with nothing denied. */
  lemma {:induction false} LookupSuccess(m: map<Path, Node>, denied: set<Path>, p: Path)
    requires Lookup(m, denied, p).Success?
    ensures p in m && Lookup(m, denied, p).value == m[p] && Reachable(denied, p)
    decreases |p.segments|
  {
    if |p.segments| > 0 {
      LookupSuccess(m, denied, Dirname(p));
    }
  }

  /** Every existing entry reachable from the root is found. */
  lemma {:induction false} LookupPresent(m: map<Path, Node>, denied: set<Path>, p: Path)
    requires WellFormed(m, denied) && p in m && Reachable(denied, p)
    ensures Lookup(m, denied, p) == Success(m[p])
    decreases |p.segments|
  {
    if |p.segments| > 0 {
      LookupPresent(m, denied, Dirname(p));
    }
  }

  /**
   * A child of a directory that was missing is still missing once a
   * recursive `mkdir` has created the directory and nothing below it.
   */
  lemma ChildOfCreatedMissing(m: map<Path, Node>, m2: map<Path, Node>, denied: set<Path>, dir: Path, p: Path)
    requires WellFormed(m, denied) && Lookup(m, denied, dir) == Failure(ENOENT)
    requires forall q :: q in m2 && q !in m ==> AncestorOrSelf(q, dir)
    requires Lookup(m2, denied, dir).Success? && Lookup(m2, denied, dir).value.Dir?
    requires |p.segments| > 0 && Dirname(p) == dir
    ensures Lookup(m2, denied, p) == Failure(ENOENT)
  {
    LookupMissing(m, denied, dir);
    assert p !in m;
  }

  /**
   * A copy can go to `target` in the directory `dir`: `dir` is a directory
   * and `target` is a file, to be overwritten, or missing.
   */
  predicate FreeTarget(m: map<Path, Node>, denied: set<Path>, dir: Path, target: Path)
  {
    && |target.segments| > 0 && Dirname(target) == dir
    && Lookup(m, denied, dir).Success? && Lookup(m, denied, dir).value.Dir?
    && (|| Lookup(m, denied, target) == Failure(ENOENT)
        || (Lookup(m, denied, target).Success? && Lookup(m, denied, target).value.File?))
  }

  /**
   * What one turn of `prepareTestZips` needs to succeed: the sample is a
   * file, and the target in `dir` is free or `dir` is missing altogether.
   */
  predicate CanPlace(m: map<Path, Node>, denied: set<Path>, dir: Path, sample: Path, target: Path)
  {
    && Lookup(m, denied, sample).Success? && Lookup(m, denied, sample).value.File?
    && (|| FreeTarget(m, denied, dir, target)
        || (|target.segments| > 0 && Dirname(target) == dir && Lookup(m, denied, dir) == Failure(ENOENT)))
  }

  /**
   * Every turn of `prepareTestZips` can succeed: each turn can place its
   * copy, and no target lies on the way to a directory, so that no copy
   * blocks a later `mkdir` and no `mkdir` takes the name of a later copy.
   */
  predicate AllPlaceable(m: map<Path, Node>, denied: set<Path>, sample: Path, dirs: seq<Path>, targets: seq<Path>)
    requires |dirs| == |targets|
  {
    && Lookup(m, denied, sample).Success? && Lookup(m, denied, sample).value.File?
    && (forall j {:trigger CanPlace(m, denied, dirs[j], sample, targets[j])} ::
          0 <= j < |dirs| ==> CanPlace(m, denied, dirs[j], sample, targets[j]))
    && (forall j, k {:trigger AncestorOrSelf(targets[j], dirs[k])} ::
          0 <= j < |targets| && 0 <= k < |dirs| ==> !AncestorOrSelf(targets[j], dirs[k]))
  }

  /**
   * A path that was missing is missing or a directory after changes that
   * kept every entry's kind and added only directories on the way to it.
   */
  lemma {:induction false} MissingAfterDirs(m0: map<Path, Node>, m: map<Path, Node>, denied: set<Path>, d: Path)
    requires WellFormed(m0, denied) && KeepsKinds(m0, m) && Lookup(m0, denied, d) == Failure(ENOENT)
    requires forall q {:trigger Added(q, m0, m)} :: Added(q, m0, m) && AncestorOrSelf(q, d) ==> m[q].Dir?
    ensures || Lookup(m, denied, d) == Failure(ENOENT)
            || (Lookup(m, denied, d).Success? && Lookup(m, denied, d).value.Dir?)
    decreases |d.segments|
  {
    LookupMissing(m0, denied, d);
    assert AncestorOrSelf(d, d) && (d in m ==> Added(d, m0, m));
    if |d.segments| > 0 {
      var parent := Dirname(d);
      AncestorsOfParent(d);
      if Lookup(m0, denied, parent).Success? {
        LookupKept(m0, m, denied, parent);
      } else {
        MissingAfterDirs(m0, m, denied, parent);
      }
    }
  }

  /**
   * When every turn could place its copy at the start, the next one still
   * can once the earlier turns wrote their own targets and created the
   * directories on the way to their own locations.
   */
  lemma StillFree(m0: map<Path, Node>, m: map<Path, Node>, denied: set<Path>, sample: Path,
                  dirs: seq<Path>, targets: seq<Path>, i: nat)
    requires WellFormed(m0, denied) && WellFormed(m, denied) && KeepsKinds(m0, m)
    requires |dirs| == |targets| && i < |dirs|
    requires ChangedOnly(m0, m, targets[..i], dirs[..i]) && targets[i] !in targets[..i]
    requires AllPlaceable(m0, denied, sample, dirs, targets)
    ensures CanPlace(m, denied, dirs[i], sample, targets[i])
  {
    var d, t := dirs[i], targets[i];
    assert CanPlace(m0, denied, d, sample, t);
    LookupSuccess(m0, denied, sample);
    LookupKept(m0, m, denied, sample);
    assert t in m ==> t in m0 by {
      if t in m && t !in m0 {
        assert Added(t, m0, m);
      }
    }
    if Lookup(m0, denied, d).Success? {
      LookupKept(m0, m, denied, d);
      if Lookup(m0, denied, t).Success? {
        LookupKept(m0, m, denied, t);
      } else {
        LookupMissing(m0, denied, t);
      }
    } else {
      LookupMissing(m0, denied, d);
      forall q | Added(q, m0, m) && AncestorOrSelf(q, d) ensures m[q].Dir? {
        if q in targets[..i] {
          assert false;
        }
      }
      MissingAfterDirs(m0, m, denied, d);
    }
  }

  /**
   * After the `mkdir` of a turn that can succeed, the sample is still the
   * file it was and the target is free.
   */
  lemma FreeAfterMkdir(m: map<Path, Node>, m2: map<Path, Node>, denied: set<Path>,
                       dir: Path, sample: Path, target: Path)
    requires WellFormed(m, denied) && Extends(m, m2) && CanPlace(m, denied, dir, sample, target)
    requires forall q :: q in m2 && q !in m ==> m2[q].Dir? && AncestorOrSelf(q, dir)
    requires Lookup(m, denied, dir).Success? && Lookup(m, denied, dir).value.Dir? ==> m2 == m
    requires Lookup(m2, denied, dir).Success? && Lookup(m2, denied, dir).value.Dir?
    ensures Lookup(m2, denied, sample) == Lookup(m, denied, sample)
    ensures FreeTarget(m2, denied, dir, target)
  {
    ExtendsKeepsKinds(m, m2);
    LookupSuccess(m, denied, sample);
    LookupKept(m, m2, denied, sample);
    if !FreeTarget(m, denied, dir, target) {
      ChildOfCreatedMissing(m, m2, denied, dir, target);
    }
  }

  /** A name a directory lists is an entry, which resolves unless it is itself denied. */
  lemma ListedEntryResolves(m: map<Path, Node>, denied: set<Path>, p: Path, n: string)
    requires WellFormed(m, denied)
    requires Lookup(m, denied, p).Success? && Lookup(m, denied, p).value.Dir?
    requires n in Lookup(m, denied, p).value.names
    ensures Child(p, n) in m && |Child(p, n).segments| > 0 && Dirname(Child(p, n)) == p
    ensures Lookup(m, denied, Child(p, n))
      == if Child(p, n) in denied then Failure(EACCES) else Success(m[Child(p, n)])
  {
    LookupSuccess(m, denied, p);
    var c := Child(p, n);
    assert c.segments[..|c.segments| - 1] == p.segments;
  }

  /** ENOENT means the entry is missing, and nothing on the way to it is denied. */
  lemma {:induction false} LookupMissing(m: map<Path, Node>, denied: set<Path>, p: Path)
    requires WellFormed(m, denied) && Lookup(m, denied, p) == Failure(ENOENT)
    ensures p !in m && Reachable(denied, p)
    ensures p.absolute ==> |p.segments| > 0
    decreases |p.segments|
  {
    if |p.segments| == 0 {
    } else {
      match Lookup(m, denied, Dirname(p))
      case Failure(e) =>
        LookupMissing(m, denied, Dirname(p));
        assert Dirname(p) !in m;
      case Success(_) =>
        LookupSuccess(m, denied, Dirname(p));
    }
  }

  /** The facts about `AddEntry` below an existing directory that the invariant proofs use. */
  lemma AddEntryFacts(m: map<Path, Node>, p: Path, node: Node)
    requires |p.segments| > 0 && p !in m && Dirname(p) in m && m[Dirname(p)].Dir?
    ensures AddEntry(m, p, node).Keys == m.Keys + {p}
    ensures AddEntry(m, p, node)[Dirname(p)] == Dir(m[Dirname(p)].names + [Basename(p)])
    ensures Child(Dirname(p), Basename(p)) == p
  {
  }

  /** Adding a new file or an empty directory under an existing directory keeps the tree well formed. */
  lemma AddEntryWellFormed(m: map<Path, Node>, denied: set<Path>, p: Path, node: Node)
    requires WellFormed(m, denied) && p.absolute && |p.segments| > 0 && p !in m
    requires Dirname(p) in m && m[Dirname(p)].Dir?
    requires node.Dir? ==> node.names == []
    ensures WellFormed(AddEntry(m, p, node), denied)
    ensures Extends(m, AddEntry(m, p, node))
  {
    var r := AddEntry(m, p, node);
    AddEntryFacts(m, p, node);
    assert ListedByParent(r) by { AddEntryListedByParent(m, p, node); }
    assert ListingsDistinct(r) by { AddEntryListingsDistinct(m, p, node); }
    assert ListedExist(r) by { AddEntryListedExist(m, p, node); }
    assert AllAbsolute(r) && denied <= r.Keys by { AddEntryAllAbsolute(m, denied, p, node); }
    AddEntryExtends(m, p, node);
    assert RootIsDirectory(r) by { AddEntryRootIsDirectory(m, p, node); }
  }

  lemma AddEntryAllAbsolute(m: map<Path, Node>, denied: set<Path>, p: Path, node: Node)
    requires AllAbsolute(m) && denied <= m.Keys && p.absolute && |p.segments| > 0 && Dirname(p) in m
    ensures AllAbsolute(AddEntry(m, p, node)) && denied <= AddEntry(m, p, node).Keys
  {
  }

  lemma AddEntryRootIsDirectory(m: map<Path, Node>, p: Path, node: Node)
    requires RootIsDirectory(m) && |p.segments| > 0 && p !in m
    ensures RootIsDirectory(AddEntry(m, p, node))
  {
    var r := AddEntry(m, p, node);
    assert Root != p;
    if Root != Dirname(p) {
      assert r[Root] == m[Root];
    }
  }

  lemma AddEntryExtends(m: map<Path, Node>, p: Path, node: Node)
    requires |p.segments| > 0 && p !in m && Dirname(p) in m && m[Dirname(p)].Dir?
    ensures Extends(m, AddEntry(m, p, node))
  {
    var r := AddEntry(m, p, node);
    AddEntryFacts(m, p, node);
    forall q | q in m
      ensures q in r && (m[q].File? ==> r[q] == m[q]) && (m[q].Dir? ==> r[q].Dir? && m[q].names <= r[q].names)
    {
      if q != Dirname(p) {
        assert r[q] == m[q];
      }
    }
  }

  lemma AddEntryListedByParent(m: map<Path, Node>, p: Path, node: Node)
    requires ListedByParent(m)
    requires |p.segments| > 0 && p !in m && Dirname(p) in m && m[Dirname(p)].Dir?
    ensures ListedByParent(AddEntry(m, p, node))
  {
    var r := AddEntry(m, p, node);
    var parent := Dirname(p);
    AddEntryFacts(m, p, node);
    forall q | q in r && |q.segments| > 0
      ensures Dirname(q) in r && r[Dirname(q)].Dir? && Basename(q) in r[Dirname(q)].names
    {
      if q != p {
        assert q in m;
        if Dirname(q) == parent {
          assert Basename(q) in m[parent].names;
        }
      }
    }
  }

  lemma AddEntryListingsDistinct(m: map<Path, Node>, p: Path, node: Node)
    requires ListingsDistinct(m) && ListedExist(m)
    requires |p.segments| > 0 && p !in m && Dirname(p) in m && m[Dirname(p)].Dir?
    requires node.Dir? ==> node.names == []
    ensures ListingsDistinct(AddEntry(m, p, node))
  {
    var r := AddEntry(m, p, node);
    var parent := Dirname(p);
    AddEntryFacts(m, p, node);
    assert Basename(p) !in m[parent].names;
    forall q | q in r && r[q].Dir? ensures NoDuplicates(r[q].names) {
      if q == parent {
        assert NoDuplicates(m[parent].names);
      }
    }
  }

  lemma AddEntryListedExist(m: map<Path, Node>, p: Path, node: Node)
    requires ListedExist(m)
    requires |p.segments| > 0 && p !in m && Dirname(p) in m && m[Dirname(p)].Dir?
    requires node.Dir? ==> node.names == []
    ensures ListedExist(AddEntry(m, p, node))
  {
    var r := AddEntry(m, p, node);
    var parent := Dirname(p);
    AddEntryFacts(m, p, node);
    forall q, n | q in r && r[q].Dir? && n in r[q].names ensures Child(q, n) in r {
      if q == parent && n != Basename(p) {
        assert n in m[parent].names;
      }
    }
  }

  /** `mkdir(p, {recursive: true})` after ENOENT: a well-formed tree where `p` is an empty directory. */
  lemma {:induction false} WithDirsCreates(m: map<Path, Node>, denied: set<Path>, p: Path)
    requires WellFormed(m, denied) && p.absolute && Lookup(m, denied, p) == Failure(ENOENT)
    ensures WellFormed(WithDirs(m, p), denied)
    ensures Extends(m, WithDirs(m, p))
    ensures Lookup(WithDirs(m, p), denied, p) == Success(Dir([]))
    decreases |p.segments|
  {
    LookupMissing(m, denied, p);
    var parent := Dirname(p);
    var m1 := WithDirs(m, parent);
    if Lookup(m, denied, parent).Failure? {
      WithDirsCreates(m, denied, parent);
    } else {
      LookupSuccess(m, denied, parent);
    }
    assert p !in m1 by {
      assert !Added(p, m, m1);
    }
    CreateUnderParent(m, m1, denied, p);
  }

  /** The last step of `WithDirsCreates`: an empty directory added under a parent that resolves. */
  lemma CreateUnderParent(m: map<Path, Node>, m1: map<Path, Node>, denied: set<Path>, p: Path)
    requires WellFormed(m1, denied) && Extends(m, m1) && p.absolute && |p.segments| > 0 && p !in m1
    requires Reachable(denied, p)
    requires Lookup(m1, denied, Dirname(p)).Success? && Lookup(m1, denied, Dirname(p)).value.Dir?
    ensures WellFormed(AddEntry(m1, p, Dir([])), denied)
    ensures Extends(m, AddEntry(m1, p, Dir([])))
    ensures Lookup(AddEntry(m1, p, Dir([])), denied, p) == Success(Dir([]))
  {
    var parent := Dirname(p);
    LookupSuccess(m1, denied, parent);
    var r := AddEntry(m1, p, Dir([]));
    AddEntryWellFormed(m1, denied, p, Dir([]));
    ExtendsTransitive(m, m1, r);
    LookupPresent(r, denied, p);
  }

  lemma ExtendsTransitive(m1: map<Path, Node>, m2: map<Path, Node>, m3: map<Path, Node>)
    requires Extends(m1, m2) && Extends(m2, m3)
    ensures Extends(m1, m3)
  {
    forall q | q in m1 ensures m1[q].Dir? ==> m3[q].Dir? && m1[q].names <= m3[q].names {
      if m1[q].Dir? {
        assert m2[q].Dir? && m1[q].names <= m2[q].names <= m3[q].names;
      }
    }
  }

  /** Every entry of `m` is still there in `m2`, and is still the same kind of node. */
  ghost predicate KeepsKinds(m: map<Path, Node>, m2: map<Path, Node>)
  {
    forall q :: q in m ==> q in m2 && m2[q].File? == m[q].File?
  }

  lemma ExtendsKeepsKinds(m: map<Path, Node>, m2: map<Path, Node>)
    requires Extends(m, m2)
    ensures KeepsKinds(m, m2)
  {
  }

  /** A path that resolves still resolves, to its current node, once every entry keeps its kind. */
  lemma {:induction false} LookupKept(m: map<Path, Node>, m2: map<Path, Node>, denied: set<Path>, p: Path)
    requires KeepsKinds(m, m2) && Lookup(m, denied, p).Success?
    ensures Lookup(m2, denied, p) == Success(m2[p])
    decreases |p.segments|
  {
    LookupSuccess(m, denied, p);
    if |p.segments| > 0 {
      var parent := Dirname(p);
      assert Lookup(m, denied, parent).Success? && Lookup(m, denied, parent).value.Dir?;
      LookupSuccess(m, denied, parent);
      LookupKept(m, m2, denied, parent);
    }
  }

  lemma KeepsKindsTransitive(m1: map<Path, Node>, m2: map<Path, Node>, m3: map<Path, Node>)
    requires KeepsKinds(m1, m2) && KeepsKinds(m2, m3)
    ensures KeepsKinds(m1, m3)
  {
  }

  /**
   * A file found after the tree only gained directories was there before,
   * with the same bytes.
   */
  lemma FileFoundBefore(m: map<Path, Node>, m2: map<Path, Node>, denied: set<Path>, p: Path)
    requires WellFormed(m, denied) && Extends(m, m2)
    requires forall q :: q in m2 && q !in m ==> m2[q].Dir?
    requires Lookup(m2, denied, p).Success? && Lookup(m2, denied, p).value.File?
    ensures Lookup(m, denied, p) == Lookup(m2, denied, p)
  {
    LookupSuccess(m2, denied, p);
    assert p in m;
    LookupPresent(m, denied, p);
  }

  /** Removing a file keeps the tree well formed, and the file is then missing. */
  lemma UnlinkedWellFormed(m: map<Path, Node>, denied: set<Path>, p: Path)
    requires WellFormed(m, denied) && Lookup(m, denied, p).Success? && Lookup(m, denied, p).value.File?
    ensures |p.segments| > 0
    ensures WellFormed(Unlinked(m, p), denied)
    ensures Lookup(Unlinked(m, p), denied, p) == Failure(ENOENT)
  {
    LookupSuccess(m, denied, p);
    assert |p.segments| > 0 by {
      assert p != Root;
    }
    var r := Unlinked(m, p);
    var parent := Dirname(p);
    assert parent in m && m[parent].Dir?;
    UnlinkedListedByParent(m, p);
    UnlinkedListedExist(m, p);
    assert ListingsDistinct(r) by {
      forall q | q in r && r[q].Dir? ensures NoDuplicates(r[q].names) {
        if q != parent {
          assert r[q] == m[q];
        }
      }
    }
    assert RootIsDirectory(r) by {
      if Root != parent {
        assert r[Root] == m[Root];
      }
    }
    assert p !in denied;
    LookupPresent(r, denied, parent);
  }

  lemma UnlinkedListedByParent(m: map<Path, Node>, p: Path)
    requires ListedByParent(m) && |p.segments| > 0 && p in m && m[p].File?
    ensures ListedByParent(Unlinked(m, p))
  {
    var r := Unlinked(m, p);
    var parent := Dirname(p);
    assert parent in m && m[parent].Dir?;
    forall q | q in r && |q.segments| > 0
      ensures Dirname(q) in r && r[Dirname(q)].Dir? && Basename(q) in r[Dirname(q)].names
    {
      assert Dirname(q) in m && m[Dirname(q)].Dir?;
      assert Dirname(q) != p;
      if Dirname(q) == parent {
        assert Basename(q) in m[parent].names;
        assert Basename(q) != Basename(p) by {
          assert q == Child(parent, Basename(q));
          assert p == Child(parent, Basename(p));
        }
      } else {
        assert r[Dirname(q)] == m[Dirname(q)];
      }
    }
  }

  lemma UnlinkedListedExist(m: map<Path, Node>, p: Path)
    requires ListedExist(m) && |p.segments| > 0 && p in m && Dirname(p) in m && m[Dirname(p)].Dir?
    ensures ListedExist(Unlinked(m, p))
  {
    var r := Unlinked(m, p);
    var parent := Dirname(p);
    forall q, n | q in r && r[q].Dir? && n in r[q].names ensures Child(q, n) in r {
      if q == parent {
        assert n in m[parent].names && n != Basename(p);
        assert Child(q, n) != p by {
          assert p == Child(parent, Basename(p));
        }
      } else {
        assert r[q] == m[q];
        assert Dirname(Child(q, n)) == q;
      }
    }
  }

  /** Overwriting a file with new bytes keeps the tree well formed. */
  lemma OverwriteWellFormed(m: map<Path, Node>, denied: set<Path>, p: Path, bytes: seq<bv8>)
    requires WellFormed(m, denied) && p in m && m[p].File?
    ensures WellFormed(m[p := File(bytes)], denied)
  {
  }

  /** Copying a file over an existing file: what `copyFile` promises in that case. */
  lemma CopyOverwrites(m: map<Path, Node>, denied: set<Path>, src: Path, dst: Path)
    requires WellFormed(m, denied)
    requires Lookup(m, denied, src).Success? && Lookup(m, denied, src).value.File?
    requires Lookup(m, denied, dst).Success? && Lookup(m, denied, dst).value.File?
    ensures src in m && dst in m
    ensures var m2 := m[dst := m[src]];
      && WellFormed(m2, denied) && KeepsKinds(m, m2)
      && m2.Keys == m.Keys + {dst}
      && (forall q :: q in m && m[q].File? && q != dst ==> m2[q] == m[q])
      && Lookup(m2, denied, dst) == Success(m2[dst])
  {
    LookupSuccess(m, denied, src);
    LookupSuccess(m, denied, dst);
    OverwriteWellFormed(m, denied, dst, m[src].bytes);
    LookupPresent(m[dst := m[src]], denied, dst);
  }

  /** Copying a file to a missing child of a directory: what `copyFile` promises in that case. */
  lemma CopyCreates(m: map<Path, Node>, denied: set<Path>, src: Path, dst: Path)
    requires WellFormed(m, denied) && dst.absolute
    requires Lookup(m, denied, src).Success? && Lookup(m, denied, src).value.File?
    requires Lookup(m, denied, dst) == Failure(ENOENT)
    requires Lookup(m, denied, Dirname(dst)).Success? && Lookup(m, denied, Dirname(dst)).value.Dir?
    ensures src in m && |dst.segments| > 0
    ensures var m2 := AddEntry(m, dst, m[src]);
      && WellFormed(m2, denied) && KeepsKinds(m, m2)
      && m2.Keys == m.Keys + {dst}
      && (forall q :: q in m && m[q].File? && q != dst ==> m2[q] == m[q])
      && Lookup(m2, denied, dst) == Success(m2[dst])
  {
    LookupSuccess(m, denied, src);
    LookupMissing(m, denied, dst);
    LookupSuccess(m, denied, Dirname(dst));
    var m2 := AddEntry(m, dst, m[src]);
    assert m2.Keys == m.Keys + {dst};
    assert forall q :: q in m && m[q].File? && q != dst ==> m2[q] == m[q];
    assert WellFormed(m2, denied) && KeepsKinds(m, m2) by {
      AddEntryWellFormed(m, denied, dst, m[src]);
      ExtendsKeepsKinds(m, m2);
    }
    assert Lookup(m2, denied, dst) == Success(m2[dst]) by {
      AddEntryWellFormed(m, denied, dst, m[src]);
      LookupPresent(m2, denied, dst);
    }
  }

  /**
   * The process's view of the file system. Calls resolve paths with
   * `Lookup`; paths the process may not touch are fixed for its lifetime.
   */
  class FileSystem {
    var entries: map<Path, Node>
    const denied: set<Path>

    ghost predicate Valid()
      reads this
    {
      WellFormed(entries, denied)
    }

    /** `fs.access(p)`. */
    method Access(p: Path) returns (r: Result<(), Errno>)
      ensures r.Success? <==> Lookup(entries, denied, p).Success?
      ensures r.Failure? ==> r.error == Lookup(entries, denied, p).error
    {
      match Lookup(entries, denied, p)
      case Success(_) => r := Success(());
      case Failure(e) => r := Failure(e);
    }

    /** `fs.readdir(p)`. */
    method Readdir(p: Path) returns (r: Result<seq<string>, Errno>)
      ensures r == ListDir(entries, denied, p)
    {
      r := ListDir(entries, denied, p);
    }

    /** `fs.unlink(p)`: removes a file; a directory gives EPERM. */
    method Unlink(p: Path) returns (r: Result<(), Errno>)
      requires Valid()
      modifies this
      ensures Valid()
      ensures match old(Lookup(entries, denied, p))
        case Success(File(_)) => (r == Success(()) && |p.segments| > 0 && entries == Unlinked(old(entries), p))
        case Success(Dir(_)) => (r == Failure(EPERM) && entries == old(entries))
        case Failure(e) => (r == Failure(e) && entries == old(entries))
    {
      match Lookup(entries, denied, p)
      case Success(File(_)) =>
        UnlinkedWellFormed(entries, denied, p);
        entries := Unlinked(entries, p);
        r := Success(());
      case Success(Dir(_)) =>
        r := Failure(EPERM);
      case Failure(e) =>
        r := Failure(e);
    }

    /** `fs.mkdir(p, {recursive: true})`: an existing directory is no error. */
    method MakeDirectory(p: Path) returns (r: Result<(), Errno>)
      requires Valid() && p.absolute
      modifies this
      ensures Valid() && Extends(old(entries), entries)
      ensures forall q :: q in entries && q !in old(entries) ==> entries[q].Dir? && AncestorOrSelf(q, p)
      ensures r.Failure? ==> entries == old(entries)
      ensures match old(Lookup(entries, denied, p))
        case Success(Dir(_)) => (r == Success(()) && entries == old(entries))
        case Success(File(_)) => (r == Failure(EEXIST) && entries == old(entries))
        case Failure(ENOENT) => (r == Success(()) && entries == WithDirs(old(entries), p))
        case Failure(e) => (r == Failure(e) && entries == old(entries))
      ensures r.Success? ==> Lookup(entries, denied, p).Success? && Lookup(entries, denied, p).value.Dir?
    {
      match Lookup(entries, denied, p)
      case Success(Dir(_)) =>
        r := Success(());
      case Success(File(_)) =>
        r := Failure(EEXIST);
      case Failure(e) =>
        if e == ENOENT {
          WithDirsCreates(entries, denied, p);
          ghost var before := entries;
          entries := WithDirs(entries, p);
          forall q | q in entries && q !in before
            ensures entries[q].Dir? && AncestorOrSelf(q, p)
          {
            assert Added(q, before, entries);
          }
          r := Success(());
        } else {
          r := Failure(e);
        }
    }

    /**
     * `fs.copyFile(src, dst)`: creates or overwrites the file `dst` with the
     * bytes of `src`. An overwrite changes no listing; a new file is added
     * at the end of its parent's listing, and nothing else changes.
     */
    method CopyFile(src: Path, dst: Path) returns (r: Result<(), Errno>)
      requires Valid() && dst.absolute
      modifies this
      ensures Valid()
      ensures r.Failure? ==> entries == old(entries)
      ensures r.Success? <==>
        && old(Lookup(entries, denied, src)).Success? && old(Lookup(entries, denied, src)).value.File?
        && (|| (old(Lookup(entries, denied, dst)).Success? && old(Lookup(entries, denied, dst)).value.File?)
            || (old(Lookup(entries, denied, dst)) == Failure(ENOENT)
                && old(Lookup(entries, denied, Dirname(dst))).Success?
                && old(Lookup(entries, denied, Dirname(dst))).value.Dir?))
      ensures r.Success? ==>
        && entries.Keys == old(entries).Keys + {dst}
        && entries[dst] == old(entries)[src]
        && (forall q :: q in old(entries) && old(entries)[q].File? && q != dst ==> entries[q] == old(entries)[q])
      ensures r.Success? ==> Lookup(entries, denied, dst) == Success(entries[dst])
      ensures r.Success? ==>
        if old(Lookup(entries, denied, dst)).Success? then entries == old(entries)[dst := old(entries)[src]]
        else |dst.segments| > 0 && entries == AddEntry(old(entries), dst, old(entries)[src])
      ensures KeepsKinds(old(entries), entries)
    {
      var source := Lookup(entries, denied, src);
      if source.Failure? {
        return Failure(source.error);
      }
      if source.value.Dir? {
        return Failure(EISDIR);
      }
      LookupSuccess(entries, denied, src);
      var target := Lookup(entries, denied, dst);
      match target
      case Success(Dir(_)) =>
        r := Failure(EISDIR);
      case Success(File(_)) =>
        CopyOverwrites(entries, denied, src, dst);
        entries := entries[dst := entries[src]];
        r := Success(());
      case Failure(e) =>
        if e != ENOENT {
          r := Failure(e);
        } else {
          var parent := Lookup(entries, denied, Dirname(dst));
          if parent.Success? && parent.value.Dir? {
            CopyCreates(entries, denied, src, dst);
            entries := AddEntry(entries, dst, entries[src]);
            r := Success(());
          } else {
            r := Failure(ENOENT);
          }
        }
    }
  }
}

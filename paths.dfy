/**
 * The part of Node's `path` module (win32 flavour) that the harness uses,
 * on paths kept as a list of segments with an absolute flag.
 */
module Paths {
  import opened Strings

  /** A normalised path: absolute or not, and its segments in order. */
  datatype Path = Path(absolute: bool, segments: seq<string>)

  /** The separator that `path.join` writes on Windows. */
  const Separator: char := '\\'

  /** Both separators that Windows accepts in a path. */
  predicate IsSeparator(c: char)
  {
    c == '\\' || c == '/'
  }

  /** A segment as it survives normalisation: not empty, not ".", no separator. */
  predicate IsName(s: string)
  {
    |s| > 0 && s != "." && forall i :: 0 <= i < |s| ==> !IsSeparator(s[i])
  }

  predicate Canonical(p: Path)
  {
    forall i :: 0 <= i < |p.segments| ==> IsName(p.segments[i])
  }

  /** `a` is `p` or one of the directories above it. */
  predicate AncestorOrSelf(a: Path, p: Path)
  {
    a.absolute == p.absolute && |a.segments| <= |p.segments| && p.segments[..|a.segments|] == a.segments
  }

  /** A path and its parent lie on the way to it, and so does everything above the parent. */
  lemma AncestorsOfParent(p: Path)
    requires |p.segments| > 0
    ensures AncestorOrSelf(p, p) && AncestorOrSelf(Dirname(p), p)
    ensures forall a :: AncestorOrSelf(a, Dirname(p)) ==> AncestorOrSelf(a, p)
  {
    assert p.segments[..|p.segments|] == p.segments;
    forall a | AncestorOrSelf(a, Dirname(p))
      ensures AncestorOrSelf(a, p)
    {
      assert p.segments[..|a.segments|] == Dirname(p).segments[..|a.segments|];
    }
  }

  /** `path.join(p, q)`: later arguments are appended even when absolute. */
  function Join(p: Path, q: Path): (r: Path)
    ensures AncestorOrSelf(p, r)
    ensures Canonical(p) && Canonical(q) ==> Canonical(r)
  {
    Path(p.absolute, p.segments + q.segments)
  }

  /** `path.join(p, name)` for a single segment. */
  function Child(p: Path, name: string): Path
  {
    Path(p.absolute, p.segments + [name])
  }

  /** `path.dirname`: drops the last segment; a root is its own parent. */
  function Dirname(p: Path): (r: Path)
    ensures r.absolute == p.absolute
    ensures |p.segments| > 0 ==> p == Child(r, p.segments[|p.segments| - 1])
    ensures |p.segments| == 0 ==> r == p
  {
    if |p.segments| == 0 then p else Path(p.absolute, p.segments[..|p.segments| - 1])
  }

  /** `path.basename` of a path with at least one segment. */
  function Basename(p: Path): string
    requires |p.segments| > 0
  {
    p.segments[|p.segments| - 1]
  }

  /**
   * The text `path.join` produces for `p`: never empty, and it starts with
   * a separator exactly when the path is absolute.
   */
  function Render(p: Path): (r: string)
    ensures p.absolute ==> |r| > 0 && r[0] == Separator
    ensures Canonical(p) && !p.absolute ==> |r| > 0 && !IsSeparator(r[0])
  {
    if p.absolute then [Separator] + JoinWith(p.segments, [Separator])
    else if |p.segments| == 0 then "."
    else
      FirstCharOfJoined(p.segments);
      JoinWith(p.segments, [Separator])
  }

  /** Length of the leading run of non-separator characters. */
  function NameLength(s: string): (n: nat)
    ensures n <= |s|
    ensures forall i :: 0 <= i < n ==> !IsSeparator(s[i])
    ensures n < |s| ==> IsSeparator(s[n])
  {
    if |s| == 0 || IsSeparator(s[0]) then 0 else 1 + NameLength(s[1..])
  }

  /** The segments of a path text: empty and "." segments are dropped. */
  function Names(s: string): (r: seq<string>)
    ensures forall k :: 0 <= k < |r| ==> IsName(r[k])
    decreases |s|
  {
    if |s| == 0 then []
    else if IsSeparator(s[0]) then Names(s[1..])
    else
      var n := NameLength(s);
      (if s[..n] == "." then [] else [s[..n]]) + Names(s[n..])
  }

  /** A path text as `path.normalize` reads it ('..' is kept as a segment). */
  function Parse(s: string): (p: Path)
    ensures Canonical(p)
    ensures p.absolute <==> |s| > 0 && IsSeparator(s[0])
  {
    Path(|s| > 0 && IsSeparator(s[0]), Names(s))
  }

  /** Length of the longest common prefix of two segment lists. */
  function CommonPrefixLength(a: seq<string>, b: seq<string>): (k: nat)
    ensures k <= |a| && k <= |b| && a[..k] == b[..k]
    ensures k < |a| && k < |b| ==> a[k] != b[k]
  {
    if |a| == 0 || |b| == 0 || a[0] != b[0] then 0
    else
      var k := 1 + CommonPrefixLength(a[1..], b[1..]);
      assert a[..k] == [a[0]] + a[1..][..k - 1];
      assert b[..k] == [b[0]] + b[1..][..k - 1];
      k
  }

  function Ups(n: nat): (r: seq<string>)
    ensures |r| == n && forall i :: 0 <= i < n ==> r[i] == ".."
  {
    if n == 0 then [] else [".."] + Ups(n - 1)
  }

  /**
   * The segments of `path.relative(from, to)`: up out of what `from` does
   * not share with `to`, then down into the rest of `to`.
   */
  function Relative(from: Path, to: Path): (r: seq<string>)
    ensures Canonical(to) ==> forall i :: 0 <= i < |r| ==> IsName(r[i])
  {
    var k := CommonPrefixLength(from.segments, to.segments);
    Ups(|from.segments| - k) + to.segments[k..]
  }

  /** The text of `path.relative(from, to)`; reading it back gives the relative segments. */
  function RelativeText(from: Path, to: Path): (r: string)
    ensures Canonical(to) ==> Names(r) == Relative(from, to)
    ensures Relative(from, to) == [] ==> r == ""
  {
    var segs := Relative(from, to);
    if Canonical(to) then
      NamesOfJoined(segs);
      JoinWith(segs, [Separator])
    else
      JoinWith(segs, [Separator])
  }

  /** Going from `from` along `Relative(from, to)` reaches `to` when `from` is an ancestor of it. */
  lemma RelativeFromAncestor(from: Path, to: Path)
    requires from.absolute == to.absolute
    requires |from.segments| <= |to.segments| && to.segments[..|from.segments|] == from.segments
    ensures Relative(from, to) == to.segments[|from.segments|..]
    ensures Join(from, Path(false, Relative(from, to))) == to
  {
    var k := CommonPrefixLength(from.segments, to.segments);
    assert k == |from.segments|;
    assert to.segments == to.segments[..k] + to.segments[k..];
  }

  /**
   * The relative path climbs with ".." out of every segment `from` does not
   * share with `to`, then names the rest of `to`; nothing in the common part
   * appears in it.
   */
  lemma RelativeShape(from: Path, to: Path)
    ensures var k := CommonPrefixLength(from.segments, to.segments);
      && |Relative(from, to)| == |from.segments| - k + |to.segments| - k
      && (forall i :: 0 <= i < |from.segments| - k ==> Relative(from, to)[i] == "..")
      && Relative(from, to)[|from.segments| - k..] == to.segments[k..]
    ensures from.segments == to.segments ==> Relative(from, to) == [] && RelativeText(from, to) == ""
  {
    var k := CommonPrefixLength(from.segments, to.segments);
    if from.segments == to.segments {
      assert k == |from.segments|;
    }
  }

  lemma NamesAfterSeparator(c: char, s: string)
    requires IsSeparator(c)
    ensures Names([c] + s) == Names(s)
  {
    assert ([c] + s)[1..] == s;
  }

  lemma NameLengthTail(n: string, rest: string)
    requires |n| > 0 && forall i :: 0 <= i < |n| ==> !IsSeparator(n[i])
    requires |rest| == 0 || IsSeparator(rest[0])
    ensures NameLength(n + rest) == |n|
    decreases |n|
  {
    var s := n + rest;
    assert s[1..] == n[1..] + rest;
    if |n| > 1 {
      NameLengthTail(n[1..], rest);
    } else if |rest| > 0 {
      assert NameLength(rest) == 0;
    }
  }

  /** Reading back the rendered segments gives the segments. */
  lemma {:induction false} NamesOfJoined(segs: seq<string>)
    requires forall i :: 0 <= i < |segs| ==> IsName(segs[i])
    ensures Names(JoinWith(segs, [Separator])) == segs
    decreases |segs|
  {
    if |segs| == 0 {
    } else {
      var n := segs[0];
      var rest := segs[1..];
      if |rest| == 0 {
        NameLengthTail(n, "");
        assert n + "" == n;
        assert n[|n|..] == "";
      } else {
        var tail := JoinWith(rest, [Separator]);
        JoinWithCons(n, rest, [Separator]);
        assert segs == [n] + rest;
        var s := n + [Separator] + tail;
        assert s == n + ([Separator] + tail);
        NameLengthTail(n, [Separator] + tail);
        assert s[..|n|] == n;
        assert s[|n|..] == [Separator] + tail;
        NamesAfterSeparator(Separator, tail);
        NamesOfJoined(rest);
      }
    }
  }

  /** Parsing the text of a normalised path gives the path back. */
  lemma ParseRender(p: Path)
    ensures Canonical(p) ==> Parse(Render(p)) == p
  {
    if !Canonical(p) {
      return;
    }
    var j := JoinWith(p.segments, [Separator]);
    NamesOfJoined(p.segments);
    if p.absolute {
      NamesAfterSeparator(Separator, j);
    } else if |p.segments| == 0 {
      assert NameLength(".") == 1;
      assert "."[1..] == "";
    } else {
      FirstCharOfJoined(p.segments);
    }
  }

  lemma FirstCharOfJoined(segs: seq<string>)
    requires |segs| > 0
    ensures IsName(segs[0]) ==> |JoinWith(segs, [Separator])| > 0 && JoinWith(segs, [Separator])[0] == segs[0][0]
  {
    if |segs| > 1 {
      JoinWithCons(segs[0], segs[1..], [Separator]);
      assert segs == [segs[0]] + segs[1..];
    }
  }
}

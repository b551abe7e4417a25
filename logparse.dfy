/**
 * The log analysis at the end of `runExtractBookAndAnalyzeLogs`: the exit
 * code check, `logs.split('zipFilePath:')`, the `find` of the first section
 * that mentions the zip path, and the regular expression
 * `Extracted non-docx file: .* to (.*)` whose first group is the directory
 * the extractor reported.
 */
module LogAnalysis {
  import opened Wrappers
  import opened Strings

  const Marker: string := "zipFilePath:"
  const Prefix: string := "Extracted non-docx file: "
  const Arrow: string := " to "

  /** The characters a regular-expression `.` does not match. */
  predicate IsLineTerminator(c: char)
  {
    c == '\n' || c == '\r' || c == '\U{2028}' || c == '\U{2029}'
  }

  predicate SingleLine(s: string)
  {
    forall i :: 0 <= i < |s| ==> !IsLineTerminator(s[i])
  }

  /** The end of the line that index `j` is on: the first terminator at or after `j`, or the end of `s`. */
  function LineEnd(s: string, j: nat): (e: nat)
    requires j <= |s|
    ensures j <= e <= |s|
    ensures forall i :: j <= i < e ==> !IsLineTerminator(s[i])
    ensures e < |s| ==> IsLineTerminator(s[e])
    decreases |s| - j
  {
    if j == |s| || IsLineTerminator(s[j]) then j else LineEnd(s, j + 1)
  }

  /** The last `" to "` that starts at or after `lo` and ends by `hi`. */
  function LastArrow(s: string, lo: nat, hi: nat): (r: Option<nat>)
    requires hi <= |s|
    ensures r.Some? ==> lo <= r.value && r.value + |Arrow| <= hi && OccursAt(s, Arrow, r.value)
    ensures r.Some? ==> forall k :: r.value < k && k + |Arrow| <= hi ==> !OccursAt(s, Arrow, k)
    ensures r.None? ==> forall k :: lo <= k && k + |Arrow| <= hi ==> !OccursAt(s, Arrow, k)
    decreases hi
  {
    if hi < lo + |Arrow| then None
    else if OccursAt(s, Arrow, hi - |Arrow|) then Some(hi - |Arrow|)
    else LastArrow(s, lo, hi - 1)
  }

  /** A `" to "` at `k`, after `start` and on the same line: what `.* to ` can reach from `start`. */
  ghost predicate ArrowInLine(s: string, start: int, k: int)
  {
    0 <= start <= |s| && start <= k && k + |Arrow| <= LineEnd(s, start) && OccursAt(s, Arrow, k)
  }

  /** The regular expression matches with its match starting at `i`. */
  ghost predicate MatchesAt(s: string, i: int)
  {
    OccursAt(s, Prefix, i) && ArrowAhead(s, i + |Prefix|)
  }

  ghost predicate ArrowAhead(s: string, start: int)
  {
    exists k :: ArrowInLine(s, start, k)
  }

  /** `a` is the last `" to "` on the line from `start`. */
  ghost predicate LastInLine(s: string, start: int, a: int)
  {
    ArrowInLine(s, start, a) && forall k :: a < k ==> !ArrowInLine(s, start, k)
  }

  /** Where a match starts and where the `" to "` before its group is. */
  datatype Span = Span(start: nat, arrow: nat)

  /**
   * `m` is the match `String.prototype.match` reports when searching from
   * `from`: the leftmost start, and, the first `.*` being greedy, the last
   * `" to "` on that line.
   */
  ghost predicate LeftmostGreedy(s: string, from: nat, m: Span)
  {
    && from <= m.start
    && MatchesAt(s, m.start)
    && (forall j :: from <= j < m.start ==> !MatchesAt(s, j))
    && LastInLine(s, m.start + |Prefix|, m.arrow)
  }

  function FindMatch(s: string, from: nat): (r: Option<Span>)
    ensures r.Some? ==> LeftmostGreedy(s, from, r.value)
    ensures r.None? ==> forall j :: from <= j ==> !MatchesAt(s, j)
    decreases |s| - from
  {
    if from + |Prefix| > |s| then None
    else if OccursAt(s, Prefix, from) then
      match LastArrow(s, from + |Prefix|, LineEnd(s, from + |Prefix|))
      case Some(k) =>
        assert ArrowInLine(s, from + |Prefix|, k);
        Some(Span(from, k))
      case None =>
        assert !MatchesAt(s, from);
        FindMatch(s, from + 1)
    else FindMatch(s, from + 1)
  }

  /** `match[1]`: the rest of the line after the chosen `" to "`. */
  function Capture(s: string, m: Span): (r: string)
    requires m.start + |Prefix| <= |s|
    requires m.start + |Prefix| <= m.arrow && m.arrow + |Arrow| <= LineEnd(s, m.start + |Prefix|)
    ensures SingleLine(r)
  {
    s[m.arrow + |Arrow|..LineEnd(s, m.start + |Prefix|)]
  }

  /** At most one span is the leftmost greedy match. */
  lemma LeftmostGreedyUnique(s: string, from: nat, m1: Span, m2: Span)
    requires LeftmostGreedy(s, from, m1) && LeftmostGreedy(s, from, m2)
    ensures m1 == m2
  {
    assert m1.start <= m2.start;
    assert m2.start <= m1.start;
    assert m1.arrow <= m2.arrow;
    assert m2.arrow <= m1.arrow;
  }

  /** The index `find` returns: the first section that includes the zip path. */
  ghost predicate Selected(sections: seq<string>, zip: string, k: int)
  {
    0 <= k < |sections| && Contains(sections[k], zip)
    && forall j :: 0 <= j < k ==> !Contains(sections[j], zip)
  }

  lemma SelectedUnique(sections: seq<string>, zip: string, k1: int, k2: int)
    requires Selected(sections, zip, k1) && Selected(sections, zip, k2)
    ensures k1 == k2
  {
    assert k1 <= k2;
    assert k2 <= k1;
  }

  function FirstContaining(sections: seq<string>, zip: string, from: nat): (r: Option<nat>)
    requires from <= |sections|
    ensures r.Some? ==> from <= r.value < |sections| && Contains(sections[r.value], zip)
    ensures r.Some? ==> forall k :: from <= k < r.value ==> !Contains(sections[k], zip)
    ensures r.None? ==> forall k :: from <= k < |sections| ==> !Contains(sections[k], zip)
    decreases |sections| - from
  {
    if from == |sections| then None
    else if Contains(sections[from], zip) then Some(from)
    else FirstContaining(sections, zip, from + 1)
  }

  /** The rejection for a non-zero or missing exit code; it is neither of the other two. */
  function ExitMessage(code: Option<int>): (msg: string)
    ensures forall zip :: msg != NoSectionMessage(zip) && msg != NoPathMessage(zip)
  {
    var msg := "Process exited with code " + (match code case None => "null" case Some(c) => IntToString(c));
    assert forall zip :: msg[0] != NoSectionMessage(zip)[0] && msg[0] != NoPathMessage(zip)[0];
    msg
  }

  /** The rejection when no section mentions the zip; it ends with the zip's name. */
  function NoSectionMessage(zip: string): (msg: string)
    ensures |zip| <= |msg| && msg[|msg| - |zip|..] == zip
    ensures forall other :: msg != NoPathMessage(other)
  {
    var msg := "Could not find log section for " + zip;
    assert forall other :: msg[0] != NoPathMessage(other)[0];
    msg
  }

  /** The rejection when the section has no usable extraction line; it ends with the zip's name. */
  function NoPathMessage(zip: string): (msg: string)
    ensures |zip| < |msg| && msg[|msg| - |zip|..] == zip && msg[0] == 'F'
  {
    "Found log section but no " + "extraction path for " + zip
  }

  /** The section `find` selects, when it is truthy, has a match whose group is non-empty. */
  ghost predicate Reports(sections: seq<string>, zip: string, dir: string)
  {
    exists k, m :: Selected(sections, zip, k) && sections[k] != "" && LeftmostGreedy(sections[k], 0, m)
      && Capture(sections[k], m) == dir && dir != ""
  }

  /**
   * The outcome of one extraction run: the directory the log reports for
   * `zip`, or the message of the error the promise is rejected with.
   * `code` is the child's exit code, `None` when it was killed by a signal.
   */
  function AnalyzeLog(code: Option<int>, logs: string, zip: string): (r: Result<string, string>)
    ensures code != Some(0) ==> r == Failure(ExitMessage(code))
    ensures code == Some(0) ==> r != Failure(ExitMessage(code))
    ensures r.Success? ==> SingleLine(r.value) && r.value != ""
    ensures || r.Success? || r == Failure(ExitMessage(code))
            || r == Failure(NoSectionMessage(zip)) || r == Failure(NoPathMessage(zip))
  {
    if code != Some(0) then
      assert ExitMessage(code)[0] == 'P';
      Failure(ExitMessage(code))
    else
      var sections := Split(logs, Marker);
      match FirstContaining(sections, zip, 0)
      case None => Failure(NoSectionMessage(zip))
      case Some(k) =>
        // an empty section is falsy: `find` found nothing usable
        if sections[k] == "" then Failure(NoSectionMessage(zip))
        else
          var found := FindMatch(sections[k], 0);
          if found.None? then Failure(NoPathMessage(zip))
          else
            var dir := Capture(sections[k], found.value);
            if dir == "" then Failure(NoPathMessage(zip)) else Success(dir)
  }

  /**
   * The analysis succeeds exactly when the exit code is 0 and the section
   * `find` selects holds a match with a non-empty group; the result is
   * that group.
   */
  lemma AnalyzeLogReports(code: Option<int>, logs: string, zip: string)
    ensures AnalyzeLog(code, logs, zip).Success?
        <==> code == Some(0) && exists dir :: Reports(Split(logs, Marker), zip, dir)
    ensures AnalyzeLog(code, logs, zip).Success? ==> Reports(Split(logs, Marker), zip, AnalyzeLog(code, logs, zip).value)
  {
    if code == Some(0) {
      var sections := Split(logs, Marker);
      match FirstContaining(sections, zip, 0)
      case None =>
      case Some(k) =>
        assert Selected(sections, zip, k);
        forall k': int | Selected(sections, zip, k') ensures k' == k {
          SelectedUnique(sections, zip, k, k');
        }
        if sections[k] != "" {
          match FindMatch(sections[k], 0)
          case None =>
          case Some(m) =>
            forall m': Span | LeftmostGreedy(sections[k], 0, m') ensures m' == m {
              LeftmostGreedyUnique(sections[k], 0, m, m');
            }
            if Capture(sections[k], m) != "" {
              assert Reports(sections, zip, Capture(sections[k], m));
            }
        }
    }
  }
  /**
   * "Found log section but no extraction path" is the outcome exactly when
   * the exit code is 0 and `find` selects a non-empty section, but that
   * section has no match with a non-empty group.
   */
  lemma AnalyzeLogNoPath(code: Option<int>, logs: string, zip: string)
    ensures AnalyzeLog(code, logs, zip) == Failure(NoPathMessage(zip))
        <==> && code == Some(0)
             && (exists k :: Selected(Split(logs, Marker), zip, k) && Split(logs, Marker)[k] != "")
             && !exists dir :: Reports(Split(logs, Marker), zip, dir)
  {
    AnalyzeLogReports(code, logs, zip);
    if code == Some(0) {
      var sections := Split(logs, Marker);
      match FirstContaining(sections, zip, 0)
      case None =>
        assert AnalyzeLog(code, logs, zip) == Failure(NoSectionMessage(zip));
      case Some(k) =>
        assert Selected(sections, zip, k);
        forall k' | Selected(sections, zip, k') ensures k' == k {
          SelectedUnique(sections, zip, k, k');
        }
        if sections[k] == "" {
          assert AnalyzeLog(code, logs, zip) == Failure(NoSectionMessage(zip));
        } else if AnalyzeLog(code, logs, zip).Failure? {
          assert AnalyzeLog(code, logs, zip) == Failure(NoPathMessage(zip));
          assert exists k :: Selected(Split(logs, Marker), zip, k) && Split(logs, Marker)[k] != "";
        }
    }
  }

  /**
   * "Could not find log section" is the outcome exactly when the exit code
   * is 0 and no section mentions the zip (an empty section never does).
   */
  lemma AnalyzeLogNoSection(code: Option<int>, logs: string, zip: string)
    requires zip != ""
    ensures AnalyzeLog(code, logs, zip) == Failure(NoSectionMessage(zip))
        <==> code == Some(0) && forall k :: 0 <= k < |Split(logs, Marker)| ==> !Contains(Split(logs, Marker)[k], zip)
  {
    assert ExitMessage(code)[0] == 'P' && NoSectionMessage(zip)[0] == 'C' && NoPathMessage(zip)[0] == 'F';
    if code == Some(0) {
      var sections := Split(logs, Marker);
      var found := FirstContaining(sections, zip, 0);
      if found.Some? {
        var k := found.value;
        assert Contains(sections[k], zip);
        assert sections[k] != "";
        assert AnalyzeLog(code, logs, zip) != Failure(NoSectionMessage(zip));
        assert 0 <= k < |Split(logs, Marker)| && Contains(Split(logs, Marker)[k], zip);
      } else {
        assert forall k :: 0 <= k < |sections| ==> !Contains(sections[k], zip);
        assert AnalyzeLog(code, logs, zip) == Failure(NoSectionMessage(zip));
      }
    }
  }

  /**
   * The section the extractor writes for one zip file, after the marker:
   * the zip path on the marker's line, then the extraction line naming
   * the directory it extracted to.
   */
  function Record(zip: string, dir: string): string
  {
    " " + zip + "\n" + Prefix + zip + Arrow + dir + "\n"
  }

  lemma MarkerUnbordered()
    ensures |Marker| > 0 && Unbordered(Marker)
  {
    forall d | 0 < d < |Marker| ensures Marker[d..] != Marker[..|Marker| - d] {
      assert Marker[d..][0] == Marker[d] != 'z';
    }
  }

  lemma PrefixSingleLine()
    ensures SingleLine(Prefix)
  {
  }

  lemma {:induction false} LineEndAt(s: string, j: nat, e: nat)
    requires j <= e < |s| && IsLineTerminator(s[e])
    requires forall i :: j <= i < e ==> !IsLineTerminator(s[i])
    ensures LineEnd(s, j) == e
    decreases e - j
  {
    if j < e {
      LineEndAt(s, j + 1, e);
    }
  }

  /** The extraction line runs from the prefix to the final terminator. */
  lemma ExtractionLineEnd(s: string, st: nat, line: string)
    requires SingleLine(line)
    requires st + |line| + 1 == |s| && s[st..|s| - 1] == line && IsLineTerminator(s[|s| - 1])
    ensures LineEnd(s, st) == |s| - 1
  {
    forall i | st <= i < |s| - 1 ensures !IsLineTerminator(s[i]) {
      assert s[i] == line[i - st];
    }
    LineEndAt(s, st, |s| - 1);
  }

  lemma SingleLineConcat(a: string, b: string)
    requires SingleLine(a) && SingleLine(b)
    ensures SingleLine(a + b)
  {
  }

  /** Nothing before the extraction line starts a match. */
  lemma NoPrefixBefore(s: string, head: string, rest: string)
    requires |head| > 0 && IsLineTerminator(head[|head| - 1]) && !Contains(head, Prefix)
    requires s == head + rest
    ensures forall j :: 0 <= j < |head| ==> !OccursAt(s, Prefix, j)
  {
    var t := |head|;
    PrefixSingleLine();
    forall j | 0 <= j < t ensures !OccursAt(s, Prefix, j) {
      if j + |Prefix| <= t {
        assert !OccursAt(head, Prefix, j);
        assert s[j..j + |Prefix|] == head[j..j + |Prefix|];
      } else if j + |Prefix| <= |s| {
        assert s[j..j + |Prefix|][t - 1 - j] == head[t - 1];
      }
    }
  }

  /** No `" to "` starts after the one at `a` and ends before `e`. */
  lemma NoArrowAfter(s: string, a: nat, tail: string, e: nat)
    requires !Contains(" " + tail, Arrow)
    requires a + |Arrow| + |tail| <= |s| && s[a..a + |Arrow| + |tail|] == Arrow + tail
    requires e <= a + |Arrow| + |tail|
    ensures forall k :: a < k && k + |Arrow| <= e ==> !OccursAt(s, Arrow, k)
  {
    var w := " " + tail;
    var u := Arrow + tail;
    assert forall x :: a <= x < a + |u| ==> s[x] == u[x - a];
    forall k | a < k && k + |Arrow| <= e ensures !OccursAt(s, Arrow, k) {
      if k == a + 1 {
        assert s[k] == u[1] == 't';
      } else if k == a + 2 {
        assert s[k] == u[2] == 'o';
      } else {
        var i := k - a - 3;
        assert !OccursAt(w, Arrow, i);
        forall x | k <= x < k + |Arrow| ensures s[x] == w[x - k + i] {
          assert s[x] == u[x - a];
        }
        assert s[k..k + |Arrow|] == w[i..i + |Arrow|];
      }
    }
  }

  /**
   * The leftmost greedy match, from what is known about positions: the
   * prefix first occurs at `t`, its line ends at `e`, and the last
   * `" to "` before `e` is at `a`.
   */
  lemma LeftmostGreedyFromFacts(s: string, t: nat, a: nat, e: nat)
    requires OccursAt(s, Prefix, t) && forall j :: 0 <= j < t ==> !OccursAt(s, Prefix, j)
    requires t + |Prefix| <= a && a + |Arrow| <= e && LineEnd(s, t + |Prefix|) == e
    requires OccursAt(s, Arrow, a) && forall k :: a < k && k + |Arrow| <= e ==> !OccursAt(s, Arrow, k)
    ensures LeftmostGreedy(s, 0, Span(t, a))
  {
    var st := t + |Prefix|;
    assert ArrowInLine(s, st, a);
    assert MatchesAt(s, t);
    assert LastInLine(s, st, a);
  }

  /** The extraction line ends at the final terminator. */
  lemma ExtractionLineEndsLast(s: string, head: string, line: string)
    requires SingleLine(line)
    requires s == head + Prefix + line + "\n"
    ensures LineEnd(s, |head| + |Prefix|) == |s| - 1
  {
    assert s[|head| + |Prefix|..|s| - 1] == line;
    ExtractionLineEnd(s, |head| + |Prefix|, line);
  }

  /** The prefix first occurs where the extraction line starts. */
  lemma ExtractionPrefixFirst(s: string, head: string, mid: string, tail: string)
    requires |head| > 0 && IsLineTerminator(head[|head| - 1]) && !Contains(head, Prefix)
    requires s == head + Prefix + mid + Arrow + tail + "\n"
    ensures OccursAt(s, Prefix, |head|) && forall j :: 0 <= j < |head| ==> !OccursAt(s, Prefix, j)
  {
    NoPrefixBefore(s, head, Prefix + mid + Arrow + tail + "\n");
    assert s[|head|..|head| + |Prefix|] == Prefix;
  }

  /** The `" to "` after `mid` is the last on the line, and the line's rest after it is `tail`. */
  lemma ExtractionArrowLast(s: string, head: string, mid: string, tail: string)
    requires !Contains(" " + tail, Arrow)
    requires s == head + Prefix + mid + Arrow + tail + "\n"
    ensures var a := |head| + |Prefix| + |mid|;
      && OccursAt(s, Arrow, a) && (forall k :: a < k && k + |Arrow| <= |s| - 1 ==> !OccursAt(s, Arrow, k))
      && s[a + |Arrow|..|s| - 1] == tail
  {
    var a := |head| + |Prefix| + |mid|;
    assert s[a..a + |Arrow| + |tail|] == Arrow + tail;
    assert s[a..a + |Arrow|] == Arrow;
    NoArrowAfter(s, a, tail, |s| - 1);
    assert s[a + |Arrow|..|s| - 1] == tail;
  }

  /**
   * On an extraction line that follows text without the prefix, the match
   * starts at that line and its group is what follows the line's last
   * `" to "`.
   */
  lemma ExtractionLineCapture(s: string, head: string, mid: string, tail: string)
    requires |head| > 0 && IsLineTerminator(head[|head| - 1]) && !Contains(head, Prefix)
    requires SingleLine(mid) && SingleLine(tail) && !Contains(" " + tail, Arrow)
    requires s == head + Prefix + mid + Arrow + tail + "\n"
    ensures LeftmostGreedy(s, 0, Span(|head|, |head| + |Prefix| + |mid|))
    ensures Capture(s, Span(|head|, |head| + |Prefix| + |mid|)) == tail
  {
    var line := mid + Arrow + tail;
    SingleLineConcat(mid, Arrow);
    SingleLineConcat(mid + Arrow, tail);
    assert s == head + Prefix + line + "\n";
    ExtractionLineEndsLast(s, head, line);
    ExtractionPrefixFirst(s, head, mid, tail);
    ExtractionArrowLast(s, head, mid, tail);
    LeftmostGreedyFromFacts(s, |head|, |head| + |Prefix| + |mid|, |s| - 1);
  }

  /** `FindMatch` finds the leftmost greedy match. */
  lemma FindMatchIs(s: string, from: nat, m: Span)
    requires LeftmostGreedy(s, from, m)
    ensures FindMatch(s, from) == Some(m)
  {
    var r := FindMatch(s, from);
    assert r.Some?;
    LeftmostGreedyUnique(s, from, r.value, m);
  }

  /** When the section `find` selects has a match with a non-empty group, that group is the result. */
  lemma SelectedSectionResult(logs: string, zip: string, k: nat, m: Span)
    requires Selected(Split(logs, Marker), zip, k)
    requires Split(logs, Marker)[k] != "" && LeftmostGreedy(Split(logs, Marker)[k], 0, m)
    requires Capture(Split(logs, Marker)[k], m) != ""
    ensures AnalyzeLog(Some(0), logs, zip) == Success(Capture(Split(logs, Marker)[k], m))
  {
    var sections := Split(logs, Marker);
    FindMatchIs(sections[k], 0, m);
    var r := FirstContaining(sections, zip, 0);
    assert r.Some?;
    assert Selected(sections, zip, r.value);
    SelectedUnique(sections, zip, k, r.value);
  }

  /** Joining sections free of the marker and splitting the log again gives the sections back. */
  lemma SectionsOfLog(before: seq<string>, section: string, after: seq<string>, zip: string)
    requires forall k :: 0 <= k < |before| ==> !Contains(before[k], zip) && !Contains(before[k], Marker)
    requires forall k :: 0 <= k < |after| ==> !Contains(after[k], Marker)
    requires !Contains(section, Marker) && Contains(section, zip)
    ensures Split(JoinWith(before + [section] + after, Marker), Marker) == before + [section] + after
    ensures Selected(before + [section] + after, zip, |before|)
  {
    var parts := before + [section] + after;
    MarkerUnbordered();
    forall k | 0 <= k < |parts| ensures !Contains(parts[k], Marker) {
      if k < |before| {
        assert parts[k] == before[k];
      } else if k > |before| {
        assert parts[k] == after[k - |before| - 1];
      }
    }
    SplitJoin(parts, Marker);
    assert parts[|before|] == section;
    forall k | 0 <= k < |before| ensures !Contains(parts[k], zip) {
      assert parts[k] == before[k];
    }
  }

  /** In a record, the match is the extraction line and the group is what follows its last `" to "`. */
  lemma {:induction false} RecordCapture(zip: string, mid: string, tail: string)
    requires SingleLine(zip) && !Contains(zip, Prefix)
    requires SingleLine(mid) && SingleLine(tail) && !Contains(" " + tail, Arrow)
    ensures var s := " " + zip + "\n" + Prefix + mid + Arrow + tail + "\n";
            var m := Span(|zip| + 2, |zip| + 2 + |Prefix| + |mid|);
            LeftmostGreedy(s, 0, m) && Capture(s, m) == tail
  {
    var head := " " + zip + "\n";
    HeadWithoutPrefix(zip);
    var s := " " + zip + "\n" + Prefix + mid + Arrow + tail + "\n";
    assert s == head + Prefix + mid + Arrow + tail + "\n";
    ExtractionLineCapture(s, head, mid, tail);
  }

  lemma RecordMentionsZip(zip: string, dir: string)
    ensures Contains(Record(zip, dir), zip)
  {
    var s := Record(zip, dir);
    assert s[1..1 + |zip|] == zip;
    assert OccursAt(s, zip, 1);
  }

  /**
   * A log written as sections joined by the marker, with the zip's record
   * after earlier sections that do not mention the zip: splitting it
   * gives the sections back, and `find` selects the record.
   */
  lemma RecordIsSelected(before: seq<string>, after: seq<string>, zip: string, dir: string)
    requires forall k :: 0 <= k < |before| ==> !Contains(before[k], zip) && !Contains(before[k], Marker)
    requires forall k :: 0 <= k < |after| ==> !Contains(after[k], Marker)
    requires !Contains(Record(zip, dir), Marker)
    ensures Split(JoinWith(before + [Record(zip, dir)] + after, Marker), Marker) == before + [Record(zip, dir)] + after
    ensures Selected(before + [Record(zip, dir)] + after, zip, |before|)
  {
    RecordMentionsZip(zip, dir);
    SectionsOfLog(before, Record(zip, dir), after, zip);
  }

  /**
   * The extractor's own record of a zip is read back exactly: the directory
   * it logged after the zip's marker is the result, whatever other sections
   * the log holds, as long as earlier sections do not mention the zip.
   */
  lemma RecordedDirectoryIsRecovered(logs: string, k: nat, zip: string, dir: string)
    requires Selected(Split(logs, Marker), zip, k) && Split(logs, Marker)[k] == Record(zip, dir)
    requires SingleLine(zip) && !Contains(zip, Prefix)
    requires SingleLine(dir) && dir != "" && !Contains(" " + dir, Arrow)
    ensures AnalyzeLog(Some(0), logs, zip) == Success(dir)
  {
    RecordCapture(zip, zip, dir);
    SelectedSectionResult(logs, zip, k, Span(|zip| + 2, |zip| + 2 + |Prefix| + |zip|));
  }

  lemma HeadWithoutPrefix(zip: string)
    requires !Contains(zip, Prefix)
    ensures var head := " " + zip + "\n";
            |head| > 0 && IsLineTerminator(head[|head| - 1]) && !Contains(head, Prefix)
  {
    var head := " " + zip + "\n";
    forall j | 0 <= j <= |head| - |Prefix| ensures !OccursAt(head, Prefix, j) {
      if j == 0 {
        assert head[0] != Prefix[0];
        assert head[j..j + |Prefix|][0] == head[0];
      } else if j + |Prefix| <= |zip| + 1 {
        assert !OccursAt(zip, Prefix, j - 1);
        assert head[j..j + |Prefix|] == zip[j - 1..j - 1 + |Prefix|];
      } else {
        assert head[j..j + |Prefix|][|Prefix| - 1] == head[|head| - 1] == '\n';
      }
    }
  }

  /**
   * The greedy `.*` makes the group start after the LAST `" to "` on the
   * extraction line: a directory whose name holds `" to "` comes back cut
   * short, and the path check then reports a mismatch.
   */
  lemma DirectoryWithArrowIsCutShort(logs: string, k: nat, zip: string)
    requires Selected(Split(logs, Marker), zip, k) && Split(logs, Marker)[k] == Record(zip, "a to b")
    requires SingleLine(zip) && !Contains(zip, Prefix)
    ensures AnalyzeLog(Some(0), logs, zip) == Success("b")
  {
    var mid := zip + Arrow + "a";
    SingleLineConcat(zip, Arrow);
    SingleLineConcat(zip + Arrow, "a");
    RecordCapture(zip, mid, "b");
    assert Record(zip, "a to b") == " " + zip + "\n" + Prefix + mid + Arrow + "b" + "\n";
    SelectedSectionResult(logs, zip, k, Span(|zip| + 2, |zip| + 2 + |Prefix| + |mid|));
  }
}

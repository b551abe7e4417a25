/**
 * JavaScript string operations used by the test harness, on `seq<char>`:
 * `includes`, `indexOf`, `split` with a string separator, and `join`.
 */
module Strings {
  import opened Wrappers

  /** `t` occurs in `s` starting at index `i`. */
  predicate OccursAt(s: string, t: string, i: int)
  {
    0 <= i && i + |t| <= |s| && s[i..i + |t|] == t
  }

  /** `s.includes(t)`. */
  predicate Contains(s: string, t: string)
    ensures Contains(s, t) ==> |t| <= |s|
  {
    exists i | 0 <= i <= |s| - |t| :: OccursAt(s, t, i)
  }

  /** `includes` agrees with `indexOf` from the start finding an occurrence. */
  lemma ContainsIndexOf(s: string, t: string)
    ensures Contains(s, t) <==> IndexOf(s, t, 0).Some?
  {
    if IndexOf(s, t, 0).Some? {
      assert OccursAt(s, t, IndexOf(s, t, 0).value);
    }
  }

  /** `s.indexOf(t, from)`: the first occurrence at or after `from`. */
  function IndexOf(s: string, t: string, from: nat): (r: Option<nat>)
    ensures r.Some? ==> from <= r.value && OccursAt(s, t, r.value)
    ensures r.Some? ==> forall j :: from <= j < r.value ==> !OccursAt(s, t, j)
    ensures r.None? ==> forall j :: from <= j ==> !OccursAt(s, t, j)
    decreases |s| - from
  {
    if from + |t| > |s| then None
    else if s[from..from + |t|] == t then Some(from)
    else IndexOf(s, t, from + 1)
  }

  /** `parts.join(sep)`. */
  function JoinWith(parts: seq<string>, sep: string): string
  {
    if |parts| == 0 then ""
    else if |parts| == 1 then parts[0]
    else parts[0] + sep + JoinWith(parts[1..], sep)
  }

  /**
   * `s.split(sep)` for a non-empty separator: the pieces between the
   * leftmost non-overlapping occurrences of `sep`; no occurrence yields `[s]`.
   */
  function Split(s: string, sep: string): (r: seq<string>)
    requires |sep| > 0
    ensures |r| > 0
    ensures forall k :: 0 <= k < |r| ==> !Contains(r[k], sep)
    decreases |s|
  {
    match IndexOf(s, sep, 0)
    case None => [s]
    case Some(i) =>
      assert !Contains(s[..i], sep) by {
        forall j | 0 <= j <= i - |sep| ensures !OccursAt(s[..i], sep, j) {
          assert !OccursAt(s, sep, j);
          assert s[..i][j..j + |sep|] == s[j..j + |sep|];
        }
      }
      [s[..i]] + Split(s[i + |sep|..], sep)
  }

  /** No proper prefix of `t` is also a suffix of it: two occurrences never overlap. */
  predicate Unbordered(t: string)
  {
    forall d :: 0 < d < |t| ==> t[d..] != t[..|t| - d]
  }

  lemma JoinWithCons(p: string, rest: seq<string>, sep: string)
    requires |rest| > 0
    ensures JoinWith([p] + rest, sep) == p + sep + JoinWith(rest, sep)
  {
    assert ([p] + rest)[1..] == rest;
  }

  /** Splitting and joining again gives back the original text. */
  lemma {:induction false} JoinSplit(s: string, sep: string)
    requires |sep| > 0
    ensures JoinWith(Split(s, sep), sep) == s
    decreases |s|
  {
    match IndexOf(s, sep, 0)
    case None =>
    case Some(i) =>
      var rest := s[i + |sep|..];
      JoinSplit(rest, sep);
      JoinWithCons(s[..i], Split(rest, sep), sep);
      assert s == s[..i] + sep + rest by {
        assert s[i..i + |sep|] == sep;
        assert s == s[..i] + s[i..i + |sep|] + s[i + |sep|..];
      }
  }

  /**
   * Joining pieces that do not contain an unbordered separator and
   * splitting the result gives back the pieces.
   */
  lemma {:induction false} SplitJoin(parts: seq<string>, sep: string)
    requires |sep| > 0 && Unbordered(sep) && |parts| > 0
    requires forall k :: 0 <= k < |parts| ==> !Contains(parts[k], sep)
    ensures Split(JoinWith(parts, sep), sep) == parts
    decreases |parts|
  {
    var p := parts[0];
    if |parts| == 1 {
      NoOccurrence(p, sep);
    } else {
      var rest := parts[1..];
      var tail := JoinWith(rest, sep);
      var s := p + sep + tail;
      JoinWithCons(p, rest, sep);
      assert parts == [p] + rest;
      FirstOccurrenceAfterPiece(p, sep, tail);
      assert s[..|p|] == p;
      assert s[|p| + |sep|..] == tail;
      SplitJoin(rest, sep);
    }
  }

  lemma NoOccurrence(s: string, t: string)
    requires !Contains(s, t)
    ensures IndexOf(s, t, 0) == None
  {
  }

  /** In `p + sep + tail`, the first `sep` is the one after `p`. */
  lemma FirstOccurrenceAfterPiece(p: string, sep: string, tail: string)
    requires |sep| > 0 && Unbordered(sep) && !Contains(p, sep)
    ensures IndexOf(p + sep + tail, sep, 0) == Some(|p|)
  {
    var s := p + sep + tail;
    assert OccursAt(s, sep, |p|) by {
      assert s[|p|..|p| + |sep|] == sep;
    }
    forall j | 0 <= j < |p| ensures !OccursAt(s, sep, j) {
      if j + |sep| <= |p| {
        assert !OccursAt(p, sep, j);
        assert p[j..j + |sep|] == s[j..j + |sep|];
      } else if j + |sep| <= |s| {
        // an occurrence starting inside p would end inside the separator after it
        var d := |p| - j;
        assert sep[d..] != sep[..|sep| - d];
        var m :| 0 <= m < |sep| - d && sep[d..][m] != sep[..|sep| - d][m];
        assert s[j..j + |sep|][d + m] == s[|p| + m] == sep[m];
      }
    }
    match IndexOf(s, sep, 0)
    case None =>
    case Some(i) =>
  }

  function Digit(d: nat): (c: char)
    requires d < 10
    ensures '0' <= c <= '9'
  {
    "0123456789"[d]
  }

  /** The decimal text of `n`, as a template literal prints it. */
  function NatToString(n: nat): (s: string)
    ensures |s| > 0 && forall i :: 0 <= i < |s| ==> '0' <= s[i] <= '9'
  {
    if n < 10 then [Digit(n)] else NatToString(n / 10) + [Digit(n % 10)]
  }

  /** The decimal text of `i`, with a minus sign when negative. */
  function IntToString(i: int): string
  {
    if i < 0 then "-" + NatToString(-i) else NatToString(i)
  }

  /** The number a string of decimal digits denotes. */
  function DecimalValue(s: string): nat
    requires forall i :: 0 <= i < |s| ==> '0' <= s[i] <= '9'
  {
    if |s| == 0 then 0 else 10 * DecimalValue(s[..|s| - 1]) + (s[|s| - 1] as int - '0' as int)
  }

  /** Reading back the decimal text gives the number: the text names `n` and nothing else. */
  lemma {:induction false} DecimalRoundTrip(n: nat)
    ensures DecimalValue(NatToString(n)) == n
  {
    if n >= 10 {
      var s := NatToString(n);
      assert s[..|s| - 1] == NatToString(n / 10);
      DecimalRoundTrip(n / 10);
    }
  }

  lemma NatToStringInjective(a: nat, b: nat)
    requires NatToString(a) == NatToString(b)
    ensures a == b
  {
    DecimalRoundTrip(a);
    DecimalRoundTrip(b);
  }
}

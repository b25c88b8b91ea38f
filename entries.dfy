/**
 * The string handling around an input line of main.py: the separator test
 * `' - ' in linha`, the split `linha.split(' - ', 1)` into artist and track,
 * and the newline join that writes the failure list, with its inverse.
 */
module Entries {
  import opened Wrappers
  import opened Sanitize

  /** The separator between artist and track. */
  const Sep := " - "

  /** The separator occurs in `s` starting at position `i`. */
  predicate SepAt(s: string, i: nat) {
    i + 3 <= |s| && s[i] == ' ' && s[i + 1] == '-' && s[i + 2] == ' '
  }

  /** Python's `' - ' in s`. */
  predicate ContainsSep(s: string) {
    exists i :: 0 <= i < |s| && SepAt(s, i)
  }

  /** The first occurrence of the separator in `s` at or after `from`. */
  function FindSepFrom(s: string, from: nat): (r: Option<nat>)
    requires from <= |s|
    ensures r.Some? ==> from <= r.value && SepAt(s, r.value)
    ensures r.Some? ==> forall j :: from <= j < r.value ==> !SepAt(s, j)
    ensures r.None? ==> forall j :: from <= j < |s| ==> !SepAt(s, j)
    decreases |s| - from
  {
    if from + 3 > |s| then None
    else if SepAt(s, from) then Some(from)
    else FindSepFrom(s, from + 1)
  }

  /** The first occurrence of the separator in `s`, if any. */
  function FindSep(s: string): (r: Option<nat>)
    ensures r.Some? <==> ContainsSep(s)
    ensures r.Some? ==> SepAt(s, r.value) && forall j :: 0 <= j < r.value ==> !SepAt(s, j)
  {
    FindSepFrom(s, 0)
  }

  /**
   * Python's `s.split(' - ', 1)`: the whole of `s` when the separator is
   * absent, otherwise the text before its first occurrence and all the text
   * after it (which may hold further separators).
   */
  function SplitOnce(s: string): (parts: seq<string>)
    ensures |parts| == 1 || |parts| == 2
    ensures |parts| == 2 <==> ContainsSep(s)
    ensures |parts| == 1 ==> parts[0] == s
    ensures |parts| == 2 ==> parts[0] + Sep + parts[1] == s && !ContainsSep(parts[0])
    ensures |parts| == 2 ==> !ContainsSep(parts[0] + " -")
  {
    match FindSep(s)
    case None => [s]
    case Some(i) =>
      assert s[..i] + Sep + s[i + 3..] == s;
      assert !ContainsSep(s[..i]) by {
        forall j | 0 <= j < i ensures !SepAt(s[..i], j) {
          assert !SepAt(s, j);
        }
      }
      assert !ContainsSep(s[..i] + " -") by {
        var p := s[..i] + " -";
        forall k | 0 <= k < |p| ensures p[k] == s[k] {}
        forall j | 0 <= j < |p| ensures !SepAt(p, j) {
          assert j < i ==> !SepAt(s, j);
        }
      }
      [s[..i], s[i + 3..]]
  }

  /** `'\n'.join(xs)`. */
  function JoinLines(xs: seq<string>): string {
    if xs == [] then []
    else if |xs| == 1 then xs[0]
    else xs[0] + "\n" + JoinLines(xs[1..])
  }

  /** `s.split('\n')`: the pieces of `s` between newlines; never empty. */
  function SplitLines(s: string): (parts: seq<string>)
    ensures |parts| >= 1
  {
    if s == [] then [[]]
    else
      var rest := SplitLines(s[1..]);
      if s[0] == '\n' then [[]] + rest else [[s[0]] + rest[0]] + rest[1..]
  }

  /** `s` holds no newline. */
  predicate NoNewline(s: string) {
    forall k :: 0 <= k < |s| ==> s[k] != '\n'
  }

  // ---------------------------------------------------------------- lemmas

  /**
   * Joining an artist and a track with the separator and splitting again
   * gives them back exactly when no separator starts inside the artist, that
   * is, when the artist followed by " -" holds none.
   */
  lemma SplitOnceInvertsJoin(artist: string, track: string)
    ensures SplitOnce(artist + Sep + track) == [artist, track] <==> !ContainsSep(artist + " -")
  {
    var s := artist + Sep + track;
    var a := artist + " -";
    assert SepAt(s, |artist|);
    assert forall j :: 0 <= j < |artist| ==> (SepAt(s, j) <==> SepAt(a, j)) by {
      forall j | 0 <= j < |artist| ensures SepAt(s, j) <==> SepAt(a, j) {
        assert s[j] == a[j] && s[j + 1] == a[j + 1] && s[j + 2] == a[j + 2];
      }
    }
    if !ContainsSep(a) {
      assert forall j :: 0 <= j < |artist| ==> !SepAt(s, j);
      assert FindSep(s) == Some(|artist|);
      assert s[..|artist|] == artist && s[|artist| + 3..] == track;
    } else {
      var j :| 0 <= j < |a| && SepAt(a, j);
      assert SepAt(s, j);
      assert |SplitOnce(s)[0]| <= j < |artist|;
    }
  }

  /**
   * A stripped line that holds the separator splits into a non-empty artist
   * and a non-empty track: the separator starts and ends with a space, which
   * cannot be at either end of a stripped line.
   */
  lemma StrippedEntryHasBothParts(line: string)
    requires IsStripped(line) && ContainsSep(line)
    ensures |SplitOnce(line)| == 2 && SplitOnce(line)[0] != [] && SplitOnce(line)[1] != []
  {
    var parts := SplitOnce(line);
    var n := |parts[0]|;
    assert line == parts[0] + Sep + parts[1];
    assert |line| == n + 3 + |parts[1]|;
    assert line[n] == ' ' && line[n + 2] == ' ';
  }

  /** A line read from a file carries a newline at most as its last character; stripping removes it. */
  lemma StripRemovesNewline(line: string)
    requires forall k :: 0 <= k < |line| - 1 ==> line[k] != '\n'
    ensures NoNewline(Strip(line))
  {
    var r := Strip(line);
    var i := StripStart(line);
    forall k | 0 <= k < |r| ensures r[k] != '\n' {
      assert r[k] == line[i + k];
      if i + k == |line| - 1 {
        assert k == |r| - 1;
      }
    }
  }

  lemma {:induction false} SplitLinesOfLine(x: string)
    requires NoNewline(x)
    ensures SplitLines(x) == [x]
  {
    if x != [] {
      SplitLinesOfLine(x[1..]);
      assert [x[0]] + x[1..] == x;
    }
  }

  lemma {:induction false} SplitLinesAfterLine(x: string, t: string)
    requires NoNewline(x)
    ensures SplitLines(x + "\n" + t) == [x] + SplitLines(t)
  {
    if x == [] {
      assert ([] + "\n" + t)[1..] == t;
    } else {
      assert (x + "\n" + t)[1..] == x[1..] + "\n" + t;
      SplitLinesAfterLine(x[1..], t);
      assert [x[0]] + x[1..] == x;
    }
  }

  /**
   * Reading the failure file back: splitting the newline-joined list on
   * newlines gives the list again, when no entry holds a newline and the list
   * is not empty.
   */
  lemma {:induction false} SplitLinesInvertsJoin(xs: seq<string>)
    requires xs != [] && forall i :: 0 <= i < |xs| ==> NoNewline(xs[i])
    ensures SplitLines(JoinLines(xs)) == xs
  {
    if |xs| == 1 {
      SplitLinesOfLine(xs[0]);
    } else {
      SplitLinesInvertsJoin(xs[1..]);
      SplitLinesAfterLine(xs[0], JoinLines(xs[1..]));
      assert xs == [xs[0]] + xs[1..];
    }
  }
}

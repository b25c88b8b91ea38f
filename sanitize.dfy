/**
 * The file-name sanitiser `sanitizar_nome_arquivo` of main.py. It turns an
 * artist or track name into a folder or file name in four steps: each of
 * the nine characters of the class `[\\/:*?"<>|]` becomes a space, every run
 * of whitespace becomes one space, both ends are stripped, and the result is
 * cut to at most 100 characters.
 */
module Sanitize {

  /** Longest name the sanitiser returns (the slice `[:100]`). */
  const MaxNameLength := 100

  /**
   * Python's whitespace: the characters for which `str.isspace()` holds. Both
   * the regular-expression class `\s` on a `str` and `str.strip()` use it.
   */
  predicate IsWs(c: char) {
    ('\t' <= c <= '\r') || ('\U{1C}' <= c <= ' ') || c == '\U{85}' || c == '\U{A0}'
    || c == '\U{1680}' || ('\U{2000}' <= c <= '\U{200A}') || c == '\U{2028}' || c == '\U{2029}'
    || c == '\U{202F}' || c == '\U{205F}' || c == '\U{3000}'
  }

  /** The character class `[\\/:*?"<>|]`. */
  predicate IsForbidden(c: char) {
    c == '\\' || c == '/' || c == ':' || c == '*' || c == '?' || c == '"' || c == '<' || c == '>' || c == '|'
  }

  /** No character of `s` is in the forbidden class. */
  predicate NoForbidden(s: string) {
    forall k :: 0 <= k < |s| ==> !IsForbidden(s[k])
  }

  /** Neither end of `s` is whitespace: what `str.strip()` leaves. */
  predicate IsStripped(s: string) {
    s == [] || (!IsWs(s[0]) && !IsWs(s[|s| - 1]))
  }

  /**
   * The spacing the sanitiser guarantees: every whitespace character is a
   * plain space, and no two spaces are adjacent.
   */
  predicate WellSpaced(s: string) {
    (forall k :: 0 <= k < |s| && IsWs(s[k]) ==> s[k] == ' ')
    && (forall k :: 0 <= k < |s| - 1 ==> !DoubleSpaceAt(s, k))
  }

  /** Positions `k` and `k + 1` of `s` both hold a space. */
  predicate DoubleSpaceAt(s: string, k: nat)
    requires k + 1 < |s|
  {
    s[k] == ' ' && s[k + 1] == ' '
  }

  /** The characters of `s` that are not whitespace, in order. */
  function NonWs(s: string): string {
    if s == [] then [] else (if IsWs(s[0]) then [] else [s[0]]) + NonWs(s[1..])
  }

  /** The characters of `s` that survive sanitising: neither whitespace nor forbidden. */
  function Kept(s: string): string {
    if s == [] then [] else (if IsWs(s[0]) || IsForbidden(s[0]) then [] else [s[0]]) + Kept(s[1..])
  }

  /** Step 1, `re.sub(r'[\\/:*?"<>|]', ' ', nome)`. */
  function ReplaceForbidden(s: string): (r: string)
    ensures |r| == |s|
    ensures forall k :: 0 <= k < |s| ==> r[k] == (if IsForbidden(s[k]) then ' ' else s[k])
    ensures NoForbidden(r)
  {
    if s == [] then [] else [if IsForbidden(s[0]) then ' ' else s[0]] + ReplaceForbidden(s[1..])
  }

  /** The end of the whitespace run of `s` that starts at `i`. */
  function SkipWs(s: string, i: nat): (j: nat)
    requires i <= |s|
    ensures i <= j <= |s|
    ensures forall k :: i <= k < j ==> IsWs(s[k])
    ensures j == |s| || !IsWs(s[j])
    decreases |s| - i
  {
    if i == |s| || !IsWs(s[i]) then i else SkipWs(s, i + 1)
  }

  /** The start of the whitespace run of `s` that ends at `j`, going back no further than `lo`. */
  function SkipWsBack(s: string, lo: nat, j: nat): (e: nat)
    requires lo <= j <= |s|
    ensures lo <= e <= j
    ensures forall k :: e <= k < j ==> IsWs(s[k])
    ensures e == lo || !IsWs(s[e - 1])
  {
    if j == lo || !IsWs(s[j - 1]) then j else SkipWsBack(s, lo, j - 1)
  }

  /** Where the text that `Strip` keeps begins. */
  function StripStart(s: string): nat {
    SkipWs(s, 0)
  }

  /** Where the text that `Strip` keeps ends. */
  function StripEnd(s: string): nat {
    SkipWsBack(s, SkipWs(s, 0), |s|)
  }

  /**
   * `str.strip()`: the slice of `s` from its first to its last
   * non-whitespace character; everything cut off is whitespace.
   */
  function Strip(s: string): (r: string)
    ensures IsStripped(r)
    ensures StripStart(s) <= StripEnd(s) <= |s| && r == s[StripStart(s)..StripEnd(s)]
    ensures forall k :: 0 <= k < StripStart(s) ==> IsWs(s[k])
    ensures forall k :: StripEnd(s) <= k < |s| ==> IsWs(s[k])
  {
    s[StripStart(s)..StripEnd(s)]
  }

  /**
   * Step 2, `re.sub(r'\s+', ' ', ...)`: each maximal run of whitespace becomes
   * one space. The result is never longer, is empty only for the empty input,
   * starts with a space exactly when the input starts with whitespace, and
   * brings in no forbidden character.
   */
  function CollapseWs(s: string): (r: string)
    ensures |r| <= |s|
    ensures r == [] <==> s == []
    ensures s != [] ==> r[0] == (if IsWs(s[0]) then ' ' else s[0])
    ensures NoForbidden(s) ==> NoForbidden(r)
    decreases |s|
  {
    if s == [] then []
    else if IsWs(s[0]) then [' '] + CollapseWs(s[SkipWs(s, 1)..])
    else [s[0]] + CollapseWs(s[1..])
  }

  /** Python's slice `s[:n]`: the first `n` characters, or all of `s` when it is shorter. */
  function Truncate(s: string, n: nat): (r: string)
    ensures |r| <= n && |r| <= |s| && r == s[..|r|]
    ensures |s| <= n ==> r == s
    ensures |s| > n ==> |r| == n
  {
    if |s| <= n then s else s[..n]
  }

  /** `sanitizar_nome_arquivo`: the four steps in order. */
  function SanitizeName(name: string): (r: string)
    ensures |r| <= MaxNameLength
    ensures NoForbidden(r)
    ensures WellSpaced(r)
    ensures r == [] || !IsWs(r[0])
  {
    var collapsed := CollapseWs(ReplaceForbidden(name));
    var stripped := Strip(collapsed);
    var r := Truncate(stripped, MaxNameLength);
    assert NoForbidden(r) && WellSpaced(r) by {
      CollapseWellSpaced(ReplaceForbidden(name));
      WellSpacedSlice(collapsed, StripStart(collapsed), StripEnd(collapsed));
      WellSpacedSlice(stripped, 0, |r|);
    }
    assert r == [] || r[0] == stripped[0];
    r
  }

  /**
   * The name under which yt-dlp saves a download (the `outtmpl` of
   * `baixar_musica`): sanitised artist, " - ", sanitised track, and yt-dlp's
   * extension placeholder. It holds no path separator, so the file lands
   * directly in the artist's folder.
   */
  function OutputTemplate(artist: string, track: string): (r: string)
    ensures |r| <= 2 * MaxNameLength + 3 + 8
    ensures NoForbidden(r)
  {
    var a := SanitizeName(artist);
    var t := SanitizeName(track);
    PlaceholdersAreClean();
    NoForbiddenConcat(a, " - ");
    NoForbiddenConcat(a + " - ", t);
    NoForbiddenConcat(a + " - " + t, ".%(ext)s");
    a + " - " + t + ".%(ext)s"
  }

  // ---------------------------------------------------------------- lemmas

  /** The fixed parts of the output template hold no forbidden character. */
  lemma PlaceholdersAreClean()
    ensures NoForbidden(" - ") && NoForbidden(".%(ext)s")
  {
    var e := ".%(ext)s";
    assert e[0] == '.' && e[1] == '%' && e[2] == '(' && e[3] == 'e';
    assert e[4] == 'x' && e[5] == 't' && e[6] == ')' && e[7] == 's';
  }

  lemma NoForbiddenConcat(a: string, b: string)
    requires NoForbidden(a) && NoForbidden(b)
    ensures NoForbidden(a + b)
  {
    forall k | 0 <= k < |a + b| ensures !IsForbidden((a + b)[k]) {
      if k >= |a| { assert (a + b)[k] == b[k - |a|]; }
    }
  }

  /** A slice of a well-spaced, forbidden-free string is well-spaced and forbidden-free. */
  lemma WellSpacedSlice(s: string, i: nat, j: nat)
    requires i <= j <= |s|
    ensures WellSpaced(s) ==> WellSpaced(s[i..j])
    ensures NoForbidden(s) ==> NoForbidden(s[i..j])
  {
    var t := s[i..j];
    if WellSpaced(s) {
      forall k | 0 <= k < |t| - 1 ensures !DoubleSpaceAt(t, k) {
        assert t[k] == s[i + k] && t[k + 1] == s[i + k + 1];
        assert !DoubleSpaceAt(s, i + k);
      }
    }
  }

  /** Putting a character in front of a well-spaced string keeps it well-spaced unless it adds whitespace. */
  lemma WellSpacedCons(c: char, r: string)
    requires WellSpaced(r)
    requires IsWs(c) ==> c == ' '
    requires c == ' ' && r != [] ==> r[0] != ' '
    ensures WellSpaced([c] + r)
  {
    var t := [c] + r;
    forall k | 1 <= k < |t| - 1 ensures !DoubleSpaceAt(t, k) {
      assert t[k] == r[k - 1] && t[k + 1] == r[k];
      assert !DoubleSpaceAt(r, k - 1);
    }
    forall k | 1 <= k < |t| ensures IsWs(t[k]) ==> t[k] == ' ' {
      assert t[k] == r[k - 1];
    }
  }

  /** Collapsing leaves no whitespace but single plain spaces. */
  lemma {:induction false} CollapseWellSpaced(s: string)
    ensures WellSpaced(CollapseWs(s))
    decreases |s|
  {
    if s == [] {
    } else if IsWs(s[0]) {
      var t := s[SkipWs(s, 1)..];
      CollapseWellSpaced(t);
      assert t == [] || !IsWs(t[0]);
      WellSpacedCons(' ', CollapseWs(t));
    } else {
      CollapseWellSpaced(s[1..]);
      WellSpacedCons(s[0], CollapseWs(s[1..]));
    }
  }

  lemma {:induction false} NonWsAppend(a: string, b: string)
    ensures NonWs(a + b) == NonWs(a) + NonWs(b)
  {
    if a != [] {
      assert (a + b)[0] == a[0] && (a + b)[1..] == a[1..] + b;
      NonWsAppend(a[1..], b);
      var x := if IsWs(a[0]) then [] else [a[0]];
      assert NonWs(a + b) == x + NonWs(a[1..] + b);
      assert NonWs(a) == x + NonWs(a[1..]);
    } else {
      assert a + b == b;
    }
  }

  lemma {:induction false} NonWsOfWhitespace(s: string)
    requires forall k :: 0 <= k < |s| ==> IsWs(s[k])
    ensures NonWs(s) == []
  {
    if s != [] {
      NonWsOfWhitespace(s[1..]);
    }
  }

  /** Stripping only removes whitespace. */
  lemma StripKeepsText(s: string)
    ensures NonWs(Strip(s)) == NonWs(s)
  {
    var i, e := StripStart(s), StripEnd(s);
    var a, m, b := s[..i], s[i..e], s[e..];
    assert forall k :: 0 <= k < |a| ==> a[k] == s[k];
    assert forall k :: 0 <= k < |b| ==> b[k] == s[e + k];
    assert s == a + m + b;
    NonWsPadded(a, m, b);
  }

  lemma NonWsPadded(a: string, m: string, b: string)
    requires forall k :: 0 <= k < |a| ==> IsWs(a[k])
    requires forall k :: 0 <= k < |b| ==> IsWs(b[k])
    ensures NonWs(a + m + b) == NonWs(m)
  {
    NonWsAppend(a + m, b);
    NonWsAppend(a, m);
    NonWsOfWhitespace(a);
    NonWsOfWhitespace(b);
  }

  /** A non-empty run made only of whitespace collapses to exactly one space. */
  lemma CollapseOfWhitespace(w: string)
    requires w != [] && forall k :: 0 <= k < |w| ==> IsWs(w[k])
    ensures CollapseWs(w) == " "
  {
    assert SkipWs(w, 1) == |w|;
    assert w[|w|..] == [];
  }

  /** Where `a` ends, skipping whitespace in `a + b` stops as in `a` alone, unless whitespace continues into `b`. */
  lemma {:induction false} SkipWsAppend(a: string, b: string, i: nat)
    requires i <= |a|
    requires SkipWs(a, i) < |a| || b == [] || !IsWs(b[0])
    ensures SkipWs(a + b, i) == SkipWs(a, i)
    decreases |a| - i
  {
    if i < |a| && IsWs(a[i]) {
      assert (a + b)[i] == a[i];
      SkipWsAppend(a, b, i + 1);
    } else if i < |a| {
      assert (a + b)[i] == a[i];
    } else if b != [] {
      assert (a + b)[i] == b[0];
    }
  }

  /**
   * Collapsing works piece by piece: it distributes over a concatenation
   * whose junction does not fall inside a whitespace run, so text on either
   * side of a run stays apart.
   */
  lemma {:induction false} CollapseAppend(a: string, b: string)
    requires a == [] || b == [] || !IsWs(a[|a| - 1]) || !IsWs(b[0])
    ensures CollapseWs(a + b) == CollapseWs(a) + CollapseWs(b)
    decreases |a|
  {
    if a == [] {
      assert a + b == b;
    } else {
      var j := NextKept(a);
      if IsWs(a[0]) {
        assert j == |a| ==> IsWs(a[|a| - 1]);
        SkipWsAppend(a, b, 1);
      }
      assert a[j..] != [] ==> a[j..][|a[j..]| - 1] == a[|a| - 1];
      CollapseAppend(a[j..], b);
      CollapseAppendStep(a, b);
    }
  }

  /** Where `CollapseWs` resumes after the first character of `s`. */
  function NextKept(s: string): (j: nat)
    requires s != []
    ensures 1 <= j <= |s|
  {
    if IsWs(s[0]) then SkipWs(s, 1) else 1
  }

  /** One unfolding of `CollapseWs` on both `a + b` and `a`, given the claim for the rest of `a`. */
  lemma CollapseAppendStep(a: string, b: string)
    requires a != []
    requires IsWs(a[0]) ==> SkipWs(a + b, 1) == SkipWs(a, 1)
    requires CollapseWs(a[NextKept(a)..] + b) == CollapseWs(a[NextKept(a)..]) + CollapseWs(b)
    ensures CollapseWs(a + b) == CollapseWs(a) + CollapseWs(b)
  {
    CollapseUnfoldAppend(a, b);
    CollapseUnfold(a);
    ConsAppend([if IsWs(a[0]) then ' ' else a[0]], CollapseWs(a[NextKept(a)..]), CollapseWs(b));
  }

  /** Unfolding `CollapseWs` on `a + b` resumes inside `a` where it would on `a` alone. */
  lemma CollapseUnfoldAppend(a: string, b: string)
    requires a != []
    requires IsWs(a[0]) ==> SkipWs(a + b, 1) == SkipWs(a, 1)
    ensures CollapseWs(a + b) == [if IsWs(a[0]) then ' ' else a[0]] + CollapseWs(a[NextKept(a)..] + b)
  {
    var j := NextKept(a);
    assert (a + b)[0] == a[0];
    assert NextKept(a + b) == j;
    assert (a + b)[j..] == a[j..] + b;
    CollapseUnfold(a + b);
  }

  /** `CollapseWs` emits one character for the head of `s`, then resumes at `NextKept(s)`. */
  lemma CollapseUnfold(s: string)
    requires s != []
    ensures CollapseWs(s) == [if IsWs(s[0]) then ' ' else s[0]] + CollapseWs(s[NextKept(s)..])
  {
  }

  /** Concatenation regroups. */
  lemma ConsAppend(h: string, x: string, y: string)
    ensures h + (x + y) == (h + x) + y
  {
  }




  /** Collapsing whitespace loses no other character and keeps their order. */
  lemma {:induction false} CollapseKeepsText(s: string)
    ensures NonWs(CollapseWs(s)) == NonWs(s)
    decreases |s|
  {
    if s == [] {
    } else if IsWs(s[0]) {
      var j := SkipWs(s, 1);
      CollapseKeepsText(s[j..]);
      assert NonWs([' '] + CollapseWs(s[j..])) == NonWs(CollapseWs(s[j..]));
      assert s == s[..j] + s[j..];
      NonWsAppend(s[..j], s[j..]);
      NonWsOfWhitespace(s[..j]);
    } else {
      CollapseKeepsText(s[1..]);
      assert ([s[0]] + CollapseWs(s[1..]))[1..] == CollapseWs(s[1..]);
    }
  }

  /** Replacing forbidden characters by spaces leaves exactly the kept characters as text. */
  lemma {:induction false} ReplaceKeepsText(s: string)
    ensures NonWs(ReplaceForbidden(s)) == Kept(s)
  {
    if s != [] {
      ReplaceKeepsText(s[1..]);
      assert ReplaceForbidden(s)[1..] == ReplaceForbidden(s[1..]);
    }
  }

  /** Whitespace collapsing changes a string exactly when it is not already well-spaced. */
  lemma {:induction false} CollapseFixedIffWellSpaced(s: string)
    ensures CollapseWs(s) == s <==> WellSpaced(s)
    decreases |s|
  {
    CollapseWellSpaced(s);
    if WellSpaced(s) && s != [] {
      WellSpacedSlice(s, 1, |s|);
      assert s[1..|s|] == s[1..];
      CollapseFixedIffWellSpaced(s[1..]);
      if IsWs(s[0]) {
        assert s[0] == ' ';
        assert |s| > 1 ==> !DoubleSpaceAt(s, 0);
        assert SkipWs(s, 1) == 1;
        assert CollapseWs(s) == [' '] + CollapseWs(s[1..]);
      } else {
        assert CollapseWs(s) == [s[0]] + CollapseWs(s[1..]);
      }
      assert s == [s[0]] + s[1..];
    }
  }

  /**
   * What text the sanitiser keeps: the non-whitespace characters of the result
   * are a prefix of the input's non-whitespace, non-forbidden characters, and
   * all of them when the stripped name needed no truncation.
   */
  lemma SanitizeKeepsText(name: string)
    ensures NonWs(SanitizeName(name)) <= Kept(name)
    ensures |Strip(CollapseWs(ReplaceForbidden(name)))| <= MaxNameLength ==> NonWs(SanitizeName(name)) == Kept(name)
  {
    var collapsed := CollapseWs(ReplaceForbidden(name));
    var stripped := Strip(collapsed);
    assert NonWs(stripped) == Kept(name) by {
      ReplaceKeepsText(name);
      CollapseKeepsText(ReplaceForbidden(name));
      StripKeepsText(collapsed);
    }
    var r := SanitizeName(name);
    if |stripped| > MaxNameLength {
      assert stripped == r + stripped[|r|..];
      NonWsAppend(r, stripped[|r|..]);
    }
  }

  /** On a forbidden-free, well-spaced name, sanitising only strips and truncates. */
  lemma SanitizeSpacedName(x: string)
    requires NoForbidden(x) && WellSpaced(x)
    ensures SanitizeName(x) == Truncate(Strip(x), MaxNameLength)
  {
    assert ReplaceForbidden(x) == x;
    CollapseFixedIffWellSpaced(x);
  }

  /** A string that `SanitizeName` could return and that does not end with whitespace is a fixed point of it. */
  lemma SanitizeFixesCleanNames(r: string)
    requires |r| <= MaxNameLength && NoForbidden(r) && WellSpaced(r) && IsStripped(r)
    ensures SanitizeName(r) == r
  {
    SanitizeSpacedName(r);
    assert StripStart(r) == 0;
    assert StripEnd(r) == |r|;
    assert r[0..|r|] == r;
  }

  /**
   * A sanitised name that does not end with whitespace is left unchanged by
   * sanitising it again.
   */
  lemma SanitizeStableWithoutTrailingSpace(name: string)
    requires SanitizeName(name) == [] || !IsWs(SanitizeName(name)[|SanitizeName(name)| - 1])
    ensures SanitizeName(SanitizeName(name)) == SanitizeName(name)
  {
    SanitizeFixesCleanNames(SanitizeName(name));
  }

  /**
   * The sanitiser is not idempotent: truncation comes after stripping, so a
   * cut that falls just after a space leaves that space at the end, and a
   * second pass strips it.
   */
  lemma TruncationCanLeaveTrailingSpace(w: string)
    requires |w| == MaxNameLength - 1
    requires forall k :: 0 <= k < |w| ==> !IsWs(w[k]) && !IsForbidden(w[k])
    ensures SanitizeName(w + " b") == w + " "
    ensures SanitizeName(SanitizeName(w + " b")) == w
  {
    var x := w + " b";
    assert WellSpaced(x) by {
      forall k | 0 <= k < |x| - 1 ensures !DoubleSpaceAt(x, k) {
        if k < |w| { assert x[k] == w[k]; } else { assert x[k + 1] == 'b'; }
      }
    }
    SanitizeCutsAfterSpace(w, x);
    WellSpacedSlice(x, 0, MaxNameLength);
    assert x[0..MaxNameLength] == w + " ";
    SanitizeDropsTrailingSpace(w);
  }

  lemma SanitizeCutsAfterSpace(w: string, x: string)
    requires |w| == MaxNameLength - 1 && x == w + " b" && WellSpaced(x)
    requires forall k :: 0 <= k < |w| ==> !IsWs(w[k]) && !IsForbidden(w[k])
    ensures SanitizeName(x) == w + " "
  {
    assert NoForbidden(x) by {
      forall k | 0 <= k < |x| ensures !IsForbidden(x[k]) {
        if k < |w| { assert x[k] == w[k]; }
      }
    }
    SanitizeSpacedName(x);
    assert x[0] == w[0] && x[|x| - 1] == 'b';
    assert Strip(x) == x[0..|x|] == x;
    assert x[..MaxNameLength] == w + " ";
  }

  lemma SanitizeDropsTrailingSpace(w: string)
    requires |w| == MaxNameLength - 1 && WellSpaced(w + " ")
    requires forall k :: 0 <= k < |w| ==> !IsWs(w[k]) && !IsForbidden(w[k])
    ensures SanitizeName(w + " ") == w
  {
    var y := w + " ";
    assert NoForbidden(y) by {
      forall k | 0 <= k < |y| ensures !IsForbidden(y[k]) {
        if k < |w| { assert y[k] == w[k]; }
      }
    }
    SanitizeSpacedName(y);
    assert y[0] == w[0] && y[|w| - 1] == w[|w| - 1] && y[|w|] == ' ';
    assert SkipWsBack(y, 0, |w|) == |w|;
    assert Strip(y) == y[0..|w|] == w;
  }
}

/** The text sanitizer `remove_unwanted`: four regular-expression substitutions by the
    empty string, applied in a fixed order. Each pattern becomes an explicit matcher
    that reports how long a match starting at a given index is, and one scanner
    performs the left-to-right, non-overlapping deletion of `re.sub`. */
module Sanitizer {
  import opened Text

  /** The length of the pattern's match starting at index `i` of `s`; 0 when no match
      starts there. */
  type Matcher = (string, nat) -> nat

  /** `pattern.sub('', s[i:])` as `re` scans: where a match starts it is deleted and the
      scan resumes after it, elsewhere the character is kept and the scan moves on by
      one. Lookbehind (`\b`) sees the original `s`, as in `re`. */
  function DeleteFrom(s: string, i: nat, m: Matcher): (r: string)
    requires i <= |s|
    ensures |r| <= |s| - i
    decreases |s| - i
  {
    if i == |s| then []
    else
      var n := m(s, i);
      if 0 < n <= |s| - i then DeleteFrom(s, i + n, m)
      else [s[i]] + DeleteFrom(s, i + 1, m)
  }

  function Delete(s: string, m: Matcher): string
  {
    DeleteFrom(s, 0, m)
  }

  /** `t` is `s` with some characters deleted. */
  ghost predicate IsSubsequence(t: string, s: string)
    decreases |s|
  {
    t == [] || (s != [] && ((t[0] == s[0] && IsSubsequence(t[1..], s[1..])) || IsSubsequence(t, s[1..])))
  }

  lemma {:induction false} SubsequenceOfSuffix(t: string, s: string, k: nat)
    requires k <= |s| && IsSubsequence(t, s[k..])
    ensures IsSubsequence(t, s)
  {
    if k > 0 {
      assert s[1..][k - 1..] == s[k..];
      SubsequenceOfSuffix(t, s[1..], k - 1);
    } else {
      assert s[0..] == s;
    }
  }

  lemma {:induction false} SubsequenceTransitive(t: string, s: string, u: string)
    requires IsSubsequence(t, s) && IsSubsequence(s, u)
    ensures IsSubsequence(t, u)
    decreases |u|
  {
    if t != [] {
      assert s != [] && u != [];
      if s[0] == u[0] && IsSubsequence(s[1..], u[1..]) {
        if t[0] == s[0] && IsSubsequence(t[1..], s[1..]) {
          SubsequenceTransitive(t[1..], s[1..], u[1..]);
        } else {
          SubsequenceTransitive(t, s[1..], u[1..]);
        }
      } else {
        SubsequenceTransitive(t, s, u[1..]);
      }
    }
  }

  lemma {:induction false} SubsequenceNoLonger(t: string, s: string)
    requires IsSubsequence(t, s)
    ensures |t| <= |s|
    decreases |s|
  {
    if t != [] {
      if t[0] == s[0] && IsSubsequence(t[1..], s[1..]) {
        SubsequenceNoLonger(t[1..], s[1..]);
      } else {
        SubsequenceNoLonger(t, s[1..]);
      }
    }
  }

  /** The scanner only deletes. */
  lemma {:induction false} DeleteFromIsSubsequence(s: string, i: nat, m: Matcher)
    requires i <= |s|
    ensures IsSubsequence(DeleteFrom(s, i, m), s[i..])
    decreases |s| - i
  {
    if i < |s| {
      var n := m(s, i);
      if 0 < n <= |s| - i {
        DeleteFromIsSubsequence(s, i + n, m);
        assert s[i..][n..] == s[i + n..];
        SubsequenceOfSuffix(DeleteFrom(s, i + n, m), s[i..], n);
      } else {
        DeleteFromIsSubsequence(s, i + 1, m);
        assert s[i..][1..] == s[i + 1..];
      }
    }
  }

  /** Where no match starts, the scanner returns its input unchanged. */
  lemma {:induction false} DeleteFromNothing(s: string, i: nat, m: Matcher)
    requires i <= |s|
    requires forall j :: i <= j < |s| ==> m(s, j) == 0
    ensures DeleteFrom(s, i, m) == s[i..]
    decreases |s| - i
  {
    if i < |s| {
      DeleteFromNothing(s, i + 1, m);
      assert s[i..] == [s[i]] + s[i + 1..];
    }
  }

  // ----- code blocks: ```[\s\S]*?```

  const Fence := "```"

  /** A fence, then the shortest stretch of anything up to the next fence: a match opens
      and closes with a fence and holds no fence in between, and an opening fence with
      any fence after it starts a match that ends no later than that fence. */
  function CodeBlockAt(s: string, i: nat): (n: nat)
    ensures n > 0 ==> n >= 6 && i + n <= |s| && OccursAt(s, Fence, i) && OccursAt(s, Fence, i + n - 3)
    ensures n > 0 ==> forall j :: i + 3 <= j < i + n - 3 ==> !OccursAt(s, Fence, j)
    ensures OccursAt(s, Fence, i) ==> forall j :: i + 3 <= j && OccursAt(s, Fence, j) ==> 0 < n <= j + 3 - i
  {
    if !OccursAt(s, Fence, i) then 0
    else
      match Find(s, Fence, i + 3)
      case None => 0
      case Some(j) => j + 3 - i
  }

  // ----- URLs: (http|https)?://\S+ ignoring case

  /** `p`, which is lower case, occurs at `i` of `s` when case is ignored (ASCII). */
  predicate OccursAtIgnoringCase(s: string, p: string, i: int)
  {
    0 <= i && i + |p| <= |s| && forall k :: 0 <= k < |p| ==> Lower(s[i + k]) == p[k]
  }

  /** The maximal run of characters that are not whitespace from `j`. */
  function NonSpaceRun(s: string, j: nat): (n: nat)
    requires j <= |s|
    ensures j + n <= |s|
    ensures forall k :: j <= k < j + n ==> !IsSpace(s[k])
    ensures j + n < |s| ==> IsSpace(s[j + n])
    decreases |s| - j
  {
    if j < |s| && !IsSpace(s[j]) then 1 + NonSpaceRun(s, j + 1) else 0
  }

  /** The length of `(http|https)?://` at `i`, 0 if none. The three alternatives, tried
      in that order, are mutually exclusive once `://` must follow (the characters at
      `i` and `i + 4` tell them apart), so the first one followed by `://` is the one
      the regular expression commits to. */
  function SchemeAt(s: string, i: nat): (n: nat)
    ensures n == 0 || n == 3 || n == 7 || n == 8
    ensures n == 7 <==> OccursAtIgnoringCase(s, "http", i) && OccursAt(s, "://", i + 4)
    ensures n == 8 <==> OccursAtIgnoringCase(s, "https", i) && OccursAt(s, "://", i + 5)
    ensures n == 3 <==> OccursAt(s, "://", i)
    ensures n > 0 ==> i + n <= |s| && OccursAt(s, "://", i + n - 3)
  {
    SchemesExclusive(s, i);
    if OccursAtIgnoringCase(s, "http", i) && OccursAt(s, "://", i + 4) then 7
    else if OccursAtIgnoringCase(s, "https", i) && OccursAt(s, "://", i + 5) then 8
    else if OccursAt(s, "://", i) then 3
    else 0
  }

  /** Where `://` follows one scheme, no other scheme can be followed by it. */
  lemma SchemesExclusive(s: string, i: nat)
    ensures !(OccursAtIgnoringCase(s, "https", i) && OccursAt(s, "://", i + 4))
    ensures OccursAt(s, "://", i) ==> !OccursAtIgnoringCase(s, "http", i) && !OccursAtIgnoringCase(s, "https", i)
  {
    assert OccursAtIgnoringCase(s, "https", i) ==> Lower(s[i + 4]) == "https"[4] == 's';
    assert OccursAt(s, "://", i + 4) ==> s[i + 4] == s[i + 4..i + 7][0] == ':';
    if OccursAt(s, "://", i) {
      assert s[i..i + 3][0] == ':' && Lower(s[i + 0]) == ':';
      assert !OccursAtIgnoringCase(s, "http", i) by { assert "http"[0] == 'h'; }
      assert !OccursAtIgnoringCase(s, "https", i) by { assert "https"[0] == 'h'; }
    }
  }

  /** The scheme part, then a maximal run of non-whitespace, which must not be empty. */
  function UrlAt(s: string, i: nat): (n: nat)
    ensures n > 0 <==> SchemeAt(s, i) > 0 && i + SchemeAt(s, i) < |s| && !IsSpace(s[i + SchemeAt(s, i)])
    ensures n > 0 ==> SchemeAt(s, i) < n && i + n <= |s|
    ensures n > 0 ==> forall k :: i + SchemeAt(s, i) <= k < i + n ==> !IsSpace(s[k])
    ensures n > 0 && i + n < |s| ==> IsSpace(s[i + n])
  {
    var h := SchemeAt(s, i);
    if h == 0 then 0
    else
      var tail := NonSpaceRun(s, i + h);
      if tail == 0 then 0 else h + tail
  }

  // ----- dates: \b\d{1,2}[/-]\d{1,2}[/-]\d{4}\b

  /** `\b` at position `p`: exactly one of the characters either side of it is a word
      character. */
  predicate BoundaryAt(s: string, p: int)
    requires 0 <= p <= |s|
    ensures BoundaryAt(s, p) ==> (p > 0 && IsWordChar(s[p - 1])) || (p < |s| && IsWordChar(s[p]))
    ensures 0 < p < |s| && IsWordChar(s[p - 1]) == IsWordChar(s[p]) ==> !BoundaryAt(s, p)
  {
    (p > 0 && IsWordChar(s[p - 1])) != (p < |s| && IsWordChar(s[p]))
  }

  /** The maximal run of ASCII digits from `j`. */
  function DigitRun(s: string, j: nat): (n: nat)
    requires j <= |s|
    ensures j + n <= |s|
    ensures forall k :: j <= k < j + n ==> IsDigit(s[k])
    ensures j + n < |s| ==> !IsDigit(s[j + n])
    decreases |s| - j
  {
    if j < |s| && IsDigit(s[j]) then 1 + DigitRun(s, j + 1) else 0
  }

  predicate IsDateSeparator(c: char)
  {
    c == '/' || c == '-'
  }

  /** `\b\d{1,2}[/-]\d{1,2}[/-]\d{4}\b` matches at `i` with a day of `d1` digits and a
      month of `d2` digits. */
  predicate DateShape(s: string, i: nat, d1: nat, d2: nat)
  {
    var j := i + d1;
    var k := j + 1 + d2;
    && k + 5 <= |s| && 1 <= d1 <= 2 && 1 <= d2 <= 2
    && BoundaryAt(s, i)
    && (forall q :: i <= q < j ==> IsDigit(s[q])) && IsDateSeparator(s[j])
    && (forall q :: j + 1 <= q < k ==> IsDigit(s[q])) && IsDateSeparator(s[k])
    && (forall q :: k + 1 <= q < k + 5 ==> IsDigit(s[q])) && BoundaryAt(s, k + 5)
  }

  /** Day and month: one or two digits each, then a separator; the regular expression
      cannot stop a digit run early, since a separator must follow. The year: four
      digits, then a word boundary. */
  function DateAt(s: string, i: nat): (n: nat)
    ensures n > 0 ==> i < |s| && IsDigit(s[i]) && i + n <= |s|
  {
    if i >= |s| || !BoundaryAt(s, i) then 0
    else
      var d1 := DigitRun(s, i);
      var j := i + d1;
      if !(1 <= d1 <= 2 && j < |s| && IsDateSeparator(s[j])) then 0
      else
        var d2 := DigitRun(s, j + 1);
        var k := j + 1 + d2;
        if !(1 <= d2 <= 2 && k < |s| && IsDateSeparator(s[k])) then 0
        else if DigitRun(s, k + 1) >= 4 && BoundaryAt(s, k + 5) then k + 5 - i
        else 0
  }

  /** A match has the shape of a date, its day and month being the digit runs found
      there. */
  lemma DateAtShape(s: string, i: nat)
    requires DateAt(s, i) > 0
    ensures i + DigitRun(s, i) < |s|
    ensures var d1 := DigitRun(s, i);
      var d2 := DigitRun(s, i + d1 + 1);
      DateShape(s, i, d1, d2) && DateAt(s, i) == d1 + d2 + 6
  {
  }

  /** Every date shape at `i` is the match found there: the day and month lengths
      are the only ones the text allows. */
  lemma DateAtMatches(s: string, i: nat, d1: nat, d2: nat)
    requires DateShape(s, i, d1, d2)
    ensures DateAt(s, i) == d1 + d2 + 6
  {
    var j := i + d1;
    var k := j + 1 + d2;
    DigitRunIs(s, i, d1);
    DigitRunIs(s, j + 1, d2);
    DigitRunAtLeast(s, k + 1, 4);
    DateAtFromRuns(s, i, d1, d2);
  }

  /** The matcher's own steps: the digit runs and the separators and boundaries around
      them. */
  lemma DateAtFromRuns(s: string, i: nat, d1: nat, d2: nat)
    requires i + d1 + d2 + 6 <= |s| && 1 <= d1 <= 2 && 1 <= d2 <= 2
    requires BoundaryAt(s, i) && DigitRun(s, i) == d1 && IsDateSeparator(s[i + d1])
    requires DigitRun(s, i + d1 + 1) == d2 && IsDateSeparator(s[i + d1 + 1 + d2])
    requires DigitRun(s, i + d1 + d2 + 2) >= 4 && BoundaryAt(s, i + d1 + d2 + 6)
    ensures DateAt(s, i) == d1 + d2 + 6
  {
  }

  /** Digits up to a non-digit make the digit run. */
  lemma DigitRunIs(s: string, j: nat, d: nat)
    requires j + d < |s| && !IsDigit(s[j + d])
    requires forall q :: j <= q < j + d ==> IsDigit(s[q])
    ensures DigitRun(s, j) == d
  {
  }

  lemma DigitRunAtLeast(s: string, j: nat, d: nat)
    requires j + d <= |s|
    requires forall q :: j <= q < j + d ==> IsDigit(s[q])
    ensures DigitRun(s, j) >= d
  {
  }

  // ----- Windows paths: \b[A-Za-z]:\\[^\\]+\\[^\\]+\b

  /** The maximal run of characters other than a backslash from `j`. */
  function NonBackslashRun(s: string, j: nat): (n: nat)
    requires j <= |s|
    ensures j + n <= |s|
    ensures forall k :: j <= k < j + n ==> s[k] != '\\'
    ensures j + n < |s| ==> s[j + n] == '\\'
    decreases |s| - j
  {
    if j < |s| && s[j] != '\\' then 1 + NonBackslashRun(s, j + 1) else 0
  }

  /** The largest position in `lo..hi` that is a word boundary, if any: where the
      greedy last segment settles after backtracking. */
  function LastBoundary(s: string, lo: int, hi: int): (r: Option<int>)
    requires 0 <= lo && hi <= |s|
    ensures r.Some? ==> lo <= r.value <= hi && BoundaryAt(s, r.value)
    ensures r.Some? ==> forall p :: r.value < p <= hi ==> !BoundaryAt(s, p)
    ensures r.None? ==> forall p :: lo <= p <= hi ==> !BoundaryAt(s, p)
    decreases hi - lo
  {
    if hi < lo then None
    else if BoundaryAt(s, hi) then Some(hi)
    else LastBoundary(s, lo, hi - 1)
  }

  /** `\b[A-Za-z]:\\[^\\]+\\[^\\]+\b` matches `s[i..e]`, with the backslash between the
      two segments at `j`. */
  predicate PathShape(s: string, i: nat, j: nat, e: nat)
  {
    && i + 3 < j && j + 1 < e <= |s|
    && BoundaryAt(s, i) && IsAsciiLetter(s[i]) && s[i + 1] == ':' && s[i + 2] == '\\'
    && (forall q :: i + 3 <= q < j ==> s[q] != '\\') && s[j] == '\\'
    && (forall q :: j + 1 <= q < e ==> s[q] != '\\') && BoundaryAt(s, e)
  }

  /** A drive letter after a word boundary, `:\`, a first segment up to the next
      backslash (a shorter one could not be followed by a backslash), that backslash,
      and the longest second segment free of backslashes that ends at a word boundary.
      A match has the shape of a path. */
  function PathAt(s: string, i: nat): (n: nat)
    ensures n > 0 ==> OccursAt(s, ":\\", i + 1) && i + n <= |s|
    ensures n > 0 ==> PathShape(s, i, i + 3 + NonBackslashRun(s, i + 3), i + n)
  {
    if !(i + 3 <= |s| && BoundaryAt(s, i) && IsAsciiLetter(s[i]) && s[i + 1] == ':' && s[i + 2] == '\\') then 0
    else
      var r1 := NonBackslashRun(s, i + 3);
      var j := i + 3 + r1;
      if r1 == 0 || j == |s| then 0
      else
        var r2 := NonBackslashRun(s, j + 1);
        if r2 == 0 then 0
        else
          match LastBoundary(s, j + 2, j + 1 + r2)
          case None => 0
          case Some(e) => e - i
  }

  /** Every path shape at `i` uses the first backslash after the drive for its middle
      one and ends no later than the match found there: the match is the longest. */
  lemma PathAtLongest(s: string, i: nat, j: nat, e: nat)
    requires PathShape(s, i, j, e)
    ensures j == i + 3 + NonBackslashRun(s, i + 3)
    ensures PathAt(s, i) > 0 && e <= i + PathAt(s, i)
  {
    assert NonBackslashRun(s, i + 3) == j - i - 3;
    var r2 := NonBackslashRun(s, j + 1);
    assert r2 >= e - j - 1;
    var last := LastBoundary(s, j + 2, j + 1 + r2);
    assert last.Some? && e <= last.value;
  }

  // ----- remove_unwanted

  /** `remove_unwanted(text)`, lines 65-74: code blocks, then URLs, then dates, then
      Windows paths. */
  function RemoveUnwanted(text: string): (r: string)
    ensures |r| <= |text|
  {
    var noCode := Delete(text, CodeBlockAt);
    var noUrls := Delete(noCode, UrlAt);
    var noDates := Delete(noUrls, DateAt);
    Delete(noDates, PathAt)
  }

  /** The sanitizer only deletes: its result is the input with some characters left
      out, so it is never longer. */
  lemma RemoveUnwantedOnlyDeletes(text: string)
    ensures IsSubsequence(RemoveUnwanted(text), text)
    ensures |RemoveUnwanted(text)| <= |text|
  {
    var noCode := Delete(text, CodeBlockAt);
    var noUrls := Delete(noCode, UrlAt);
    var noDates := Delete(noUrls, DateAt);
    var r := Delete(noDates, PathAt);
    assert text[0..] == text && noCode[0..] == noCode && noUrls[0..] == noUrls && noDates[0..] == noDates;
    DeleteFromIsSubsequence(text, 0, CodeBlockAt);
    DeleteFromIsSubsequence(noCode, 0, UrlAt);
    DeleteFromIsSubsequence(noUrls, 0, DateAt);
    DeleteFromIsSubsequence(noDates, 0, PathAt);
    SubsequenceTransitive(noUrls, noCode, text);
    SubsequenceTransitive(noDates, noUrls, text);
    SubsequenceTransitive(r, noDates, text);
    SubsequenceNoLonger(r, text);
  }

  /** Text with no fence, no `://`, no digit and no `:\` has nothing any pattern can
      match, and is returned unchanged. */
  lemma RemoveUnwantedKeepsPlainText(text: string)
    requires !Contains(text, Fence) && !Contains(text, "://") && !Contains(text, ":\\")
    requires forall i :: 0 <= i < |text| ==> !IsDigit(text[i])
    ensures RemoveUnwanted(text) == text
  {
    assert text[0..] == text;
    DeleteFromNothing(text, 0, CodeBlockAt);
    DeleteFromNothing(text, 0, UrlAt);
    DeleteFromNothing(text, 0, DateAt);
    DeleteFromNothing(text, 0, PathAt);
  }

  /** The passes run in the order of lines 70-73, and the order matters. Code blocks go
      first, so a URL inside a code block is removed together with the block. */
  lemma CodeBlocksGoFirst()
    ensures RemoveUnwanted("```://a```b") == "b"
  {
    var s := "```://a```b";
    assert s[0..3] == Fence && s[7..10] == Fence;
    assert Find(s, Fence, 3) == Some(7) by {
      assert s[3..6][0] == ':' && s[4..7][0] == '/' && s[5..8][0] == '/' && s[6..9][0] == 'a';
    }
    assert CodeBlockAt(s, 0) == 10;
    assert DeleteFrom(s, 10, CodeBlockAt) == "b";
    assert Delete(s, CodeBlockAt) == "b";
    var b := "b";
    DeleteFromNothing(b, 0, UrlAt);
    DeleteFromNothing(b, 0, DateAt);
    DeleteFromNothing(b, 0, PathAt);
    assert b[0..] == b;
  }

  /** Had URLs been removed first, the URL would have swallowed the closing fence, and
      the opening fence would be left behind with no block to remove. */
  lemma UrlsFirstWouldCutBlocks()
    ensures Delete(Delete("```://a```b", UrlAt), CodeBlockAt) == "```"
  {
    UrlPassOnExample();
    var f := "```";
    assert Find(f, Fence, 3).None?;
    assert CodeBlockAt(f, 0) == 0 && CodeBlockAt(f, 1) == 0 && CodeBlockAt(f, 2) == 0;
    DeleteFromNothing(f, 0, CodeBlockAt);
    assert f[0..] == f;
  }

  /** The URL pass alone on the example: the URL runs from `://` to the end. */
  lemma UrlPassOnExample()
    ensures Delete("```://a```b", UrlAt) == "```"
  {
    var s := "```://a```b";
    UrlInExample();
    assert s[..3] == Fence;
    FenceThenUrl(s);
  }

  /** A fence followed by a URL that runs to the end loses the URL and keeps the fence. */
  lemma FenceThenUrl(s: string)
    requires |s| > 3 && s[..3] == Fence && UrlAt(s, 3) == |s| - 3
    ensures Delete(s, UrlAt) == Fence
  {
    forall i | 0 <= i < 3
      ensures UrlAt(s, i) == 0
    {
      assert s[i] == s[..3][i] == '`';
      NoUrlOnBacktick(s, i);
    }
    DeleteFromSkips(s, 3, UrlAt);
    DeleteKeepsPrefix(s, 3, UrlAt);
  }

  /** One step of the scanner where a match starts. */
  lemma DeleteFromSkips(s: string, i: nat, m: Matcher)
    requires i < |s| && 0 < m(s, i) <= |s| - i
    ensures DeleteFrom(s, i, m) == DeleteFrom(s, i + m(s, i), m)
  {
  }

  /** When no match starts before `k` and nothing is left from `k` on, the scanner
      returns the first `k` characters. */
  lemma {:induction false} DeleteKeepsPrefix(s: string, k: nat, m: Matcher)
    requires k <= |s| && DeleteFrom(s, k, m) == []
    requires forall i :: 0 <= i < k ==> m(s, i) == 0
    ensures DeleteFrom(s, 0, m) == s[..k]
  {
    PrefixKept(s, 0, k, m);
    assert s[0..k] == s[..k];
  }

  lemma {:induction false} PrefixKept(s: string, j: nat, k: nat, m: Matcher)
    requires j <= k <= |s| && DeleteFrom(s, k, m) == []
    requires forall i :: j <= i < k ==> m(s, i) == 0
    ensures DeleteFrom(s, j, m) == s[j..k]
    decreases k - j
  {
    if j < k {
      PrefixKept(s, j + 1, k, m);
      assert s[j..k] == [s[j]] + s[j + 1..k];
    }
  }

  /** A bare `://` followed by text is a URL that runs to the next whitespace. */
  lemma BareSchemeUrl(s: string, i: nat)
    requires OccursAt(s, "://", i) && i + 3 < |s| && !IsSpace(s[i + 3])
    ensures UrlAt(s, i) == 3 + NonSpaceRun(s, i + 3)
  {
  }

  /** In the example a URL starts at the `://` and takes the rest of the string. */
  lemma UrlInExample()
    ensures UrlAt("```://a```b", 3) == 8
  {
    var s := "```://a```b";
    assert s[3..6] == "://";
    BareSchemeUrl(s, 3);
    assert NonSpaceRun(s, 6) == 5;
  }

  /** No URL starts on a backtick, so none starts inside a fence. */
  lemma NoUrlOnBacktick(s: string, i: nat)
    requires i < |s| && s[i] == '`'
    ensures UrlAt(s, i) == 0
  {
    assert Lower(s[i + 0]) == '`' != "http"[0] == "https"[0];
  }
}

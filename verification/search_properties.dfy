/** Properties of MexSearch navigation and of replaceCurrent: next and
    previous undo each other, repeated next cycles through the matches, the
    stale index findPrevious leaves after replaceAll, and the offset shift
    that keeps every other match on the text it denoted. */
module SearchProperties {
  import opened Wrappers
  import opened Text
  import opened Regex
  import opened SearchMatch
  import opened Search

  // ---------------------------------------------------------------------
  // Navigation
  // ---------------------------------------------------------------------

  /** After a successful find, getCurrentMatch returns the first match of
      the new list; the editor moves the cursor to it. */
  lemma FindSelectsFirst(s: SearchState, pattern: string, doc: seq<string>, compile: Compiler)
    requires Find(s, pattern, doc, compile).1
    ensures var f := Find(s, pattern, doc, compile).0;
            GetCurrentMatch(f) == f.matches[0]
  {
  }

  /** After a successful findNext, getCurrentMatch returns the match the
      index names, which is a match of the list. */
  lemma FindNextSelectsCurrent(s: SearchState, doc: seq<string>, compile: Compiler)
    requires FindNext(s, doc, compile).1
    ensures var n := FindNext(s, doc, compile).0;
            GetCurrentMatch(n) in n.matches && GetCurrentMatch(n) == n.matches[n.currentMatch - 1]
  {
    var n := FindNext(s, doc, compile).0;
    assert 1 <= n.currentMatch <= |n.matches|;
  }

  /** findNext then findPrevious returns to the same state. */
  lemma NextThenPrevious(s: SearchState, doc: seq<string>, compile: Compiler)
    requires CurrentInRange(s) && |s.matches| > 0
    ensures FindNext(s, doc, compile).1
    ensures FindPrevious(FindNext(s, doc, compile).0, doc, compile) == (s, true)
  {
  }

  /** findPrevious then findNext returns to the same state. */
  lemma PreviousThenNext(s: SearchState, doc: seq<string>, compile: Compiler)
    requires CurrentInRange(s) && |s.matches| > 0
    ensures FindPrevious(s, doc, compile).1
    ensures FindNext(FindPrevious(s, doc, compile).0, doc, compile) == (s, true)
  {
  }

  /** n successive findNext calls. */
  function NextN(s: SearchState, n: nat, doc: seq<string>, compile: Compiler): (r: SearchState)
    requires |s.matches| > 0
    ensures r.matches == s.matches && SameSettings(r, s)
    decreases n
  {
    if n == 0 then s else NextN(FindNext(s, doc, compile).0, n - 1, doc, compile)
  }

  /** findNext advances the index cyclically: n calls (at most one round)
      move it n places, wrapping past the last match to the first. */
  lemma {:induction false} NextNCycles(s: SearchState, n: nat, doc: seq<string>, compile: Compiler)
    requires CurrentInRange(s) && |s.matches| > 0 && n <= |s.matches|
    ensures NextN(s, n, doc, compile).currentMatch ==
              if s.currentMatch + n <= |s.matches| then s.currentMatch + n else s.currentMatch + n - |s.matches|
    decreases n
  {
    if n > 0 {
      var t := FindNext(s, doc, compile).0;
      NextNCycles(t, n - 1, doc, compile);
    }
  }

  /** As many findNext calls as there are matches come back to the start. */
  lemma NextAllTheWayRound(s: SearchState, doc: seq<string>, compile: Compiler)
    requires CurrentInRange(s) && |s.matches| > 0
    ensures NextN(s, |s.matches|, doc, compile) == s
  {
    NextNCycles(s, |s.matches|, doc, compile);
  }

  /** The wrap-around of findNext: with two matches and the index on the
      second, the next call selects the first. */
  lemma FindNextWraps(s: SearchState, doc: seq<string>, compile: Compiler)
    requires |s.matches| == 2 && s.currentMatch == 2
    ensures FindNext(s, doc, compile) == (s.(currentMatch := 1), true)
  {
  }

  // ---------------------------------------------------------------------
  // The stale index after replaceAll
  // ---------------------------------------------------------------------

  /** Whenever the list is empty but the index was left beyond the end of
      the list a re-search produces, findPrevious reports success with an
      index that denotes no match. */
  lemma FindPreviousStaleIndex(s: SearchState, doc: seq<string>, compile: Compiler)
    requires |s.matches| == 0
    requires var ms := NavigationMatches(s, doc, compile); |ms| > 0 && s.currentMatch > |ms| + 1
    ensures FindPrevious(s, doc, compile).1
    ensures FindPrevious(s, doc, compile).0.currentMatch > |FindPrevious(s, doc, compile).0.matches|
    ensures GetCurrentMatch(FindPrevious(s, doc, compile).0) == Match(0, 0, 0)
  {
  }

  /** The corrected findPrevious lands on the last match instead. */
  lemma FindPreviousFixedStaleIndex(s: SearchState, doc: seq<string>, compile: Compiler)
    requires |s.matches| == 0
    requires var ms := NavigationMatches(s, doc, compile); |ms| > 0 && s.currentMatch > |ms| + 1
    ensures var r := FindPreviousFixed(s, doc, compile);
            r.1 && r.0.currentMatch == |r.0.matches| && GetCurrentMatch(r.0) == r.0.matches[|r.0.matches| - 1]
  {
  }

  /** Both versions agree whenever the index starts in range. */
  lemma FindPreviousFixedAgrees(s: SearchState, doc: seq<string>, compile: Compiler)
    requires CurrentInRange(s)
    ensures FindPreviousFixed(s, doc, compile) == FindPrevious(s, doc, compile)
  {
  }

  /** The three matches of "a" in "aaa". */
  lemma ScanAaaForA()
    ensures LiteralSpans("aaa", "a", true, false, 0) == [Span(0, 1), Span(1, 2), Span(2, 3)]
  {
    assert LiteralMatchAt("aaa", "a", 0, true, false);
    assert LiteralMatchAt("aaa", "a", 1, true, false);
    assert LiteralMatchAt("aaa", "a", 2, true, false);
    assert LiteralSpans("aaa", "a", true, false, 3) == [];
    assert LiteralSpans("aaa", "a", true, false, 2) == [Span(2, 3)];
    assert LiteralSpans("aaa", "a", true, false, 1) == [Span(1, 2), Span(2, 3)];
  }

  /** The single match of "aa" in "aaa" and in "aa". */
  lemma ScanForAa()
    ensures LiteralSpans("aaa", "aa", true, false, 0) == [Span(0, 2)]
    ensures LiteralSpans("aa", "aa", true, false, 0) == [Span(0, 2)]
  {
    assert LiteralMatchAt("aaa", "aa", 0, true, false);
    assert LiteralSpans("aaa", "aa", true, false, 2) == [];
    assert LiteralMatchAt("aa", "aa", 0, true, false);
    assert LiteralSpans("aa", "aa", true, false, 2) == [];
  }

  /** Default flags, find "a" in ["aaa"], findNext twice: the index is on the
      third of three matches. */
  lemma FindAThenStepTwice(compile: Compiler)
    ensures var s1 := Find(NEW_SEARCH, "a", ["aaa"], compile).0;
            FindNext(FindNext(s1, ["aaa"], compile).0, ["aaa"], compile).0 ==
              SearchState("a", [Match(0, 0, 1), Match(0, 1, 2), Match(0, 2, 3)], 3, false, false, false)
  {
    ScanAaaForA();
    assert CollectMatches(ScanLines(Literal("a", true, false), ["aaa"]), 1) == [Match(0, 0, 1), Match(0, 1, 2), Match(0, 2, 3)];
  }

  /** replaceAll "aa" by "a" on ["aaa"] under the default flags gives ["aa"]. */
  lemma ReplaceAllAaInAaa(s: SearchState, compile: Compiler)
    requires !s.caseSensitive && !s.wholeWord && !s.regexMode
    ensures ReplaceAll(s, "aa", "a", ["aaa"], compile) == Done((s.(lastPattern := "aa", matches := []), ["aa"]))
  {
    ScanForAa();
    assert CollectMatches(ScanLines(Literal("aa", true, false), ["aaa"]), 1) == [Match(0, 0, 2)];
    assert MatchesFor(s, "aa", ["aaa"], compile) == [Match(0, 0, 2)];
    assert SizeSub(2, 0) == 2;
    assert "aaa"[..0] + "a" + "aaa"[2..] == "aa";
    assert ReplaceMatch("aaa", Match(0, 0, 2), "a") == Done("aa");
    var ms := [Match(0, 0, 2)];
    assert ms[|ms| - 1] == Match(0, 0, 2);
    assert ms[..|ms| - 1] == [];
    assert ["aaa"][0 := "aa"] == ["aa"];
    assert ApplyReverse(["aa"], [], "a") == Done(["aa"]);
    assert ApplyReverse(["aaa"], ms, "a") == Done(["aa"]);
  }

  /** A reachable instance: on ["aaa"], find "a" and step to the third match;
      replaceAll "aa" by "a" leaves ["aa"] and the index at 3; findPrevious
      then searches again, finds the one match of "aa", and reports success
      with index 2, which denotes no match. */
  lemma StaleIndexAfterReplaceAll(compile: Compiler)
    ensures var s3 := SearchState("a", [Match(0, 0, 1), Match(0, 1, 2), Match(0, 2, 3)], 3, false, false, false);
            && FindNext(FindNext(Find(NEW_SEARCH, "a", ["aaa"], compile).0, ["aaa"], compile).0, ["aaa"], compile).0 == s3
            && ReplaceAll(s3, "aa", "a", ["aaa"], compile) == Done((s3.(lastPattern := "aa", matches := []), ["aa"]))
            && var r := FindPrevious(s3.(lastPattern := "aa", matches := []), ["aa"], compile);
               && r.1
               && r.0.matches == [Match(0, 0, 2)]
               && r.0.currentMatch == 2
               && GetCurrentMatch(r.0) == Match(0, 0, 0)
  {
    FindAThenStepTwice(compile);
    var s3 := SearchState("a", [Match(0, 0, 1), Match(0, 1, 2), Match(0, 2, 3)], 3, false, false, false);
    ReplaceAllAaInAaa(s3, compile);
    FindPreviousOnAa(s3.(lastPattern := "aa", matches := []), compile);
  }

  /** With the list empty and the index at 3, findPrevious on ["aa"] searches
      again for "aa" and decrements the index to 2. */
  lemma FindPreviousOnAa(s: SearchState, compile: Compiler)
    requires s == SearchState("aa", [], 3, false, false, false)
    ensures var r := FindPrevious(s, ["aa"], compile);
            && r.1
            && r.0.matches == [Match(0, 0, 2)]
            && r.0.currentMatch == 2
            && GetCurrentMatch(r.0) == Match(0, 0, 0)
  {
    ScanForAa();
    assert CollectMatches(ScanLines(Literal("aa", true, false), ["aa"]), 1) == [Match(0, 0, 2)];
    assert NavigationMatches(s, ["aa"], compile) == [Match(0, 0, 2)];
  }

  // ---------------------------------------------------------------------
  // replaceCurrent
  // ---------------------------------------------------------------------

  /** The size_t shift equals the signed shift whenever the shifted offset is
      a valid one. */
  lemma ShiftIsSigned(m: Match, c: Match, replacement: string)
    requires m.line == c.line && m.start > c.start
    requires c.start <= c.end < SIZE_MODULUS && c.end <= m.start <= m.end
    requires m.end + |replacement| < SIZE_MODULUS + (c.end - c.start)
    ensures var d := SizeSub(|replacement|, SizeSub(c.end, c.start));
            Shift(m, c, d) == Match(m.line, m.start + |replacement| - (c.end - c.start), m.end + |replacement| - (c.end - c.start))
  {
    var len := c.end - c.start;
    assert SizeSub(c.end, c.start) == len;
    SizeAddSub(m.start, |replacement|, len);
    SizeAddSub(m.end, |replacement|, len);
  }

  /** After the splice, a match that lay after the replaced one on its line
      denotes the same text at its shifted position. */
  lemma ShiftedMatchSameText(line: string, c: Match, m: Match, replacement: string)
    requires c.start <= c.end <= m.start <= m.end <= |line|
    ensures var line' := line[..c.start] + replacement + line[c.end..];
            var d := |replacement| - (c.end - c.start);
            && 0 <= m.start + d <= m.end + d <= |line'|
            && line'[m.start + d..m.end + d] == line[m.start..m.end]
  {
    var suffix := line[c.end..];
    var line' := line[..c.start] + replacement + suffix;
    var d := |replacement| - (c.end - c.start);
    assert line'[m.start + d..m.end + d] == suffix[m.start - c.end..m.end - c.end];
  }

  /** replaceCurrent puts the replacement at the current match's start, and
      every other match still denotes the text it denoted before, provided
      the list was well formed with strictly increasing starts per line and
      the grown line is still addressable. */
  lemma ReplaceCurrentKeepsOtherMatches(s: SearchState, replacement: string, doc: seq<string>)
    requires WellFormedMatches(s.matches, doc) && StrictStarts(s.matches)
    requires 1 <= s.currentMatch <= |s.matches|
    requires |doc[s.matches[s.currentMatch - 1].line]| + |replacement| < SIZE_MODULUS
    ensures ReplaceCurrent(s, replacement, doc).Done?
    ensures var c := s.matches[s.currentMatch - 1];
            var r := ReplaceCurrent(s, replacement, doc).value;
            && c.start + |replacement| <= |r.1[c.line]|
            && r.1[c.line][c.start..c.start + |replacement|] == replacement
            && forall i :: 0 <= i < |s.matches| && i != s.currentMatch - 1 ==>
                 var m := s.matches[i];
                 var m' := r.0.matches[i];
                 && m'.line == m.line
                 && m'.start <= m'.end <= |r.1[m.line]|
                 && r.1[m.line][m'.start..m'.end] == doc[m.line][m.start..m.end]
  {
    var k := s.currentMatch - 1;
    var c := s.matches[k];
    var line := doc[c.line];
    var len := c.end - c.start;
    assert SizeSub(c.end, c.start) == len;
    var line' := line[..c.start] + replacement + line[c.end..];
    assert ReplaceMatch(line, c, replacement) == Done(line');
    var r := ReplaceCurrent(s, replacement, doc).value;
    assert r.1 == doc[c.line := line'];
    var d := SizeSub(|replacement|, len);
    assert r.0.matches == seq(|s.matches|, i requires 0 <= i < |s.matches| => Shift(s.matches[i], c, d));
    assert line'[c.start..c.start + |replacement|] == replacement;
    forall i | 0 <= i < |s.matches| && i != k
      ensures var m := s.matches[i];
              var m' := r.0.matches[i];
              && m'.line == m.line
              && m'.start <= m'.end <= |r.1[m.line]|
              && r.1[m.line][m'.start..m'.end] == doc[m.line][m.start..m.end]
    {
      var m := s.matches[i];
      assert r.0.matches[i] == Shift(m, c, d);
      if m.line == c.line {
        SameLineApart(s.matches, doc, i, k);
        SpliceKeepsOtherMatch(line, c, m, replacement);
      }
    }
  }

  /** Two distinct matches of one line in a well-formed list with strict
      starts lie one wholly before the other. */
  lemma SameLineApart(ms: seq<Match>, doc: seq<string>, i: nat, k: nat)
    requires WellFormedMatches(ms, doc) && StrictStarts(ms)
    requires i < |ms| && k < |ms| && i != k && ms[i].line == ms[k].line
    ensures || (ms[i].end <= ms[k].start && ms[i].start < ms[k].start)
            || (ms[k].end <= ms[i].start && ms[k].start < ms[i].start)
  {
  }

  /** A match of the spliced line that does not overlap the replaced one
      denotes the same text after the splice and the shift. */
  lemma SpliceKeepsOtherMatch(line: string, c: Match, m: Match, replacement: string)
    requires m.line == c.line && c.start <= c.end <= |line| && m.start <= m.end <= |line|
    requires (m.end <= c.start && m.start < c.start) || (c.end <= m.start && c.start < m.start)
    requires |line| + |replacement| < SIZE_MODULUS
    ensures var line' := line[..c.start] + replacement + line[c.end..];
            var m' := Shift(m, c, SizeSub(|replacement|, SizeSub(c.end, c.start)));
            && m'.start <= m'.end <= |line'|
            && line'[m'.start..m'.end] == line[m.start..m.end]
  {
    var line' := line[..c.start] + replacement + line[c.end..];
    if m.start < c.start {
      assert line'[m.start..m.end] == line[m.start..m.end];
    } else {
      ShiftIsSigned(m, c, replacement);
      ShiftedMatchSameText(line, c, m, replacement);
    }
  }
}

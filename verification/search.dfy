/** MexSearch: the search state (last pattern, match list, 1-based current
    match index, mode flags), navigation between matches, and replacement of
    the current match or of every match. */
module Search {
  import opened Wrappers
  import opened Text
  import opened Regex
  import opened SearchMatch

  /** The search component's state.  `currentMatch` is 1-based; 0 means no
      current match. */
  datatype SearchState = SearchState(
    lastPattern: string,
    matches: seq<Match>,
    currentMatch: nat,
    caseSensitive: bool,
    wholeWord: bool,
    regexMode: bool)

  /** The constructor's state: no pattern, no matches, case-insensitive,
      whole-word and regex mode off. */
  const NEW_SEARCH: SearchState := SearchState("", [], 0, false, false, false)

  /** The current index denotes a match, or is 0 when there are none. */
  ghost predicate CurrentInRange(s: SearchState)
  {
    s.currentMatch <= |s.matches| && (|s.matches| > 0 ==> 1 <= s.currentMatch)
  }

  /** The pattern and flags survive; only matches and the index may change. */
  ghost predicate SameSettings(a: SearchState, b: SearchState)
  {
    a.lastPattern == b.lastPattern && a.caseSensitive == b.caseSensitive
    && a.wholeWord == b.wholeWord && a.regexMode == b.regexMode
  }

  /** findMatches under the state's flags. */
  function MatchesFor(s: SearchState, pattern: string, doc: seq<string>, compile: Compiler): seq<Match>
  {
    FindMatches(pattern, doc, s.caseSensitive, s.wholeWord, s.regexMode, compile)
  }

  lemma NewSearchDefaults()
    ensures CurrentInRange(NEW_SEARCH)
    ensures !NEW_SEARCH.caseSensitive && !NEW_SEARCH.wholeWord && !NEW_SEARCH.regexMode
    ensures NEW_SEARCH.matches == [] && NEW_SEARCH.lastPattern == []
  {
  }

  // ---------------------------------------------------------------------
  // Navigation
  // ---------------------------------------------------------------------

  /** find: remember the pattern, search the document, select the first match. */
  function Find(s: SearchState, pattern: string, doc: seq<string>, compile: Compiler): (r: (SearchState, bool))
    ensures r.0.lastPattern == pattern
    ensures r.0.matches == MatchesFor(s, pattern, doc, compile)
    ensures r.1 <==> |r.0.matches| > 0
    ensures CurrentInRange(r.0)
    ensures r.1 ==> r.0.currentMatch == 1
    ensures SameSettings(r.0, s.(lastPattern := pattern))
  {
    var ms := MatchesFor(s, pattern, doc, compile);
    (s.(lastPattern := pattern, matches := ms, currentMatch := if |ms| == 0 then 0 else 1), |ms| > 0)
  }

  /** The match list navigation works on: the existing one, or a fresh search
      for the last pattern when it is empty. */
  function NavigationMatches(s: SearchState, doc: seq<string>, compile: Compiler): (r: seq<Match>)
    ensures |s.matches| > 0 ==> r == s.matches
    ensures |s.matches| == 0 && |s.lastPattern| == 0 ==> r == []
    ensures |s.matches| == 0 && |s.lastPattern| > 0 ==> r == MatchesFor(s, s.lastPattern, doc, compile)
  {
    if |s.matches| > 0 then s.matches
    else if |s.lastPattern| == 0 then []
    else MatchesFor(s, s.lastPattern, doc, compile)
  }

  /** findNext: advance the index, wrapping from the last match to the first. */
  function FindNext(s: SearchState, doc: seq<string>, compile: Compiler): (r: (SearchState, bool))
    ensures r.1 <==> |NavigationMatches(s, doc, compile)| > 0
    ensures r.0.matches == NavigationMatches(s, doc, compile)
    ensures r.1 ==> 1 <= r.0.currentMatch <= |r.0.matches|
    ensures r.1 && s.currentMatch < |r.0.matches| ==> r.0.currentMatch == s.currentMatch + 1
    ensures r.1 && s.currentMatch >= |r.0.matches| ==> r.0.currentMatch == 1
    ensures !r.1 ==> r.0.currentMatch == s.currentMatch
    ensures SameSettings(r.0, s)
  {
    var ms := NavigationMatches(s, doc, compile);
    if |ms| == 0 then (s.(matches := ms), false)
    else
      var next := s.currentMatch + 1;
      (s.(matches := ms, currentMatch := if next > |ms| then 1 else next), true)
  }

  /** findPrevious as written: 0 and 1 go to the last match, anything else is
      decremented, even an index left beyond the end of the list. */
  function FindPrevious(s: SearchState, doc: seq<string>, compile: Compiler): (r: (SearchState, bool))
    ensures r.1 <==> |NavigationMatches(s, doc, compile)| > 0
    ensures r.0.matches == NavigationMatches(s, doc, compile)
    ensures r.1 && s.currentMatch <= 1 ==> r.0.currentMatch == |r.0.matches|
    ensures r.1 && s.currentMatch > 1 ==> r.0.currentMatch == s.currentMatch - 1
    ensures r.1 && s.currentMatch <= |r.0.matches| + 1 ==> 1 <= r.0.currentMatch <= |r.0.matches|
    ensures !r.1 ==> r.0.currentMatch == s.currentMatch
    ensures SameSettings(r.0, s)
  {
    var ms := NavigationMatches(s, doc, compile);
    if |ms| == 0 then (s.(matches := ms), false)
    else (s.(matches := ms, currentMatch := if s.currentMatch <= 1 then |ms| else s.currentMatch - 1), true)
  }

  /** findPrevious with the out-of-range index treated like 0: the result
      always denotes a match. */
  function FindPreviousFixed(s: SearchState, doc: seq<string>, compile: Compiler): (r: (SearchState, bool))
    ensures r.1 <==> |NavigationMatches(s, doc, compile)| > 0
    ensures r.0.matches == NavigationMatches(s, doc, compile)
    ensures r.1 ==> 1 <= r.0.currentMatch <= |r.0.matches|
    ensures r.1 && 1 < s.currentMatch <= |r.0.matches| ==> r.0.currentMatch == s.currentMatch - 1
    ensures r.1 && (s.currentMatch <= 1 || s.currentMatch > |r.0.matches|) ==> r.0.currentMatch == |r.0.matches|
    ensures !r.1 ==> r.0.currentMatch == s.currentMatch
    ensures SameSettings(r.0, s)
  {
    var ms := NavigationMatches(s, doc, compile);
    if |ms| == 0 then (s.(matches := ms), false)
    else
      var prev := if s.currentMatch <= 1 || s.currentMatch > |ms| then |ms| else s.currentMatch - 1;
      (s.(matches := ms, currentMatch := prev), true)
  }

  /** getCurrentMatch: the selected match, or (0, (0, 0)) when the index does
      not denote one. */
  function GetCurrentMatch(s: SearchState): (r: Match)
    ensures CurrentInRange(s) && |s.matches| > 0 ==> r in s.matches
    ensures 1 <= s.currentMatch <= |s.matches| ==> r == s.matches[s.currentMatch - 1]
    ensures s.currentMatch == 0 || s.currentMatch > |s.matches| ==> r == Match(0, 0, 0)
  {
    if s.currentMatch == 0 || s.currentMatch > |s.matches| then Match(0, 0, 0)
    else s.matches[s.currentMatch - 1]
  }

  /** clearMatches: the list and the index are reset; the last pattern and the
      flags survive, so findNext can search again. */
  function ClearMatches(s: SearchState): (r: SearchState)
    ensures r.matches == [] && r.currentMatch == 0
    ensures CurrentInRange(r) && SameSettings(r, s)
  {
    s.(matches := [], currentMatch := 0)
  }

  /** Each setter changes its own flag only; the match list is not recomputed. */
  function SetCaseSensitive(s: SearchState, sensitive: bool): (r: SearchState)
    ensures r.caseSensitive == sensitive
    ensures r.(caseSensitive := s.caseSensitive) == s
  {
    s.(caseSensitive := sensitive)
  }

  function SetWholeWord(s: SearchState, wholeWord: bool): (r: SearchState)
    ensures r.wholeWord == wholeWord
    ensures r.(wholeWord := s.wholeWord) == s
  {
    s.(wholeWord := wholeWord)
  }

  function SetRegexMode(s: SearchState, regex: bool): (r: SearchState)
    ensures r.regexMode == regex
    ensures r.(regexMode := s.regexMode) == s
  {
    s.(regexMode := regex)
  }

  // ---------------------------------------------------------------------
  // Replacement
  // ---------------------------------------------------------------------

  /** std::string::replace(pos, count, text): throws when pos is past the end;
      otherwise replaces the min(count, |s| - pos) characters from pos. */
  function StringReplace(s: string, pos: nat, count: nat, text: string): (r: Outcome<string>)
    ensures r.OutOfRange? <==> pos > |s|
    ensures r.Done? ==>
              var n := Min(count, |s| - pos);
              && |r.value| == |s| - n + |text|
              && r.value[..pos] == s[..pos]
              && r.value[pos..pos + |text|] == text
              && r.value[pos + |text|..] == s[pos + n..]
  {
    if pos > |s| then OutOfRange
    else Done(s[..pos] + text + s[pos + Min(count, |s| - pos)..])
  }

  /** The text of a match that lies within its line's bounds. */
  function Denoted(doc: seq<string>, m: Match): string
    requires m.line < |doc| && m.start <= m.end <= |doc[m.line]|
  {
    doc[m.line][m.start..m.end]
  }

  /** Replace one match in its line, as both replace operations do. */
  function ReplaceMatch(line: string, m: Match, replacement: string): Outcome<string>
  {
    StringReplace(line, m.start, SizeSub(m.end, m.start), replacement)
  }

  /** The offset adjustment of replaceCurrent: a same-line match starting after
      the replaced one moves by the size_t difference. */
  function Shift(m: Match, replaced: Match, lengthDiff: nat): (r: Match)
    ensures r.line == m.line
    ensures m.line != replaced.line || m.start <= replaced.start ==> r == m
  {
    if m.line == replaced.line && m.start > replaced.start then
      Match(m.line, SizeAdd(m.start, lengthDiff), SizeAdd(m.end, lengthDiff))
    else m
  }

  /** replaceCurrent: splice the replacement over the current match and move
      the later matches of its line.  The current match itself keeps its
      offsets.  A match starting past its line's end makes the splice throw. */
  function ReplaceCurrent(s: SearchState, replacement: string, doc: seq<string>): (r: Outcome<(SearchState, seq<string>)>)
    requires 1 <= s.currentMatch <= |s.matches| ==> s.matches[s.currentMatch - 1].line < |doc|
    ensures !(1 <= s.currentMatch <= |s.matches|) ==> r == Done((s, doc))
    ensures 1 <= s.currentMatch <= |s.matches| ==>
              var c := s.matches[s.currentMatch - 1];
              (r.OutOfRange? <==> c.start > |doc[c.line]|)
    ensures r.Done? ==>
              && |r.value.1| == |doc|
              && (forall i :: 0 <= i < |doc| && (!(1 <= s.currentMatch <= |s.matches|) || i != s.matches[s.currentMatch - 1].line) ==>
                    r.value.1[i] == doc[i])
              && |r.value.0.matches| == |s.matches|
              && (forall i :: 0 <= i < |s.matches| ==> r.value.0.matches[i].line == s.matches[i].line)
              && r.value.0.currentMatch == s.currentMatch
              && SameSettings(r.value.0, s)
  {
    if |s.matches| == 0 || s.currentMatch == 0 || s.currentMatch > |s.matches| then Done((s, doc))
    else
      var c := s.matches[s.currentMatch - 1];
      match ReplaceMatch(doc[c.line], c, replacement)
      case OutOfRange => OutOfRange
      case Done(line) =>
        var lengthDiff := SizeSub(|replacement|, SizeSub(c.end, c.start));
        var ms := seq(|s.matches|, i requires 0 <= i < |s.matches| => Shift(s.matches[i], c, lengthDiff));
        Done((s.(matches := ms), doc[c.line := line]))
  }

  /** The splices of replaceAll, last match first.  A match whose start is past
      its line's end makes the splice throw. */
  function ApplyReverse(doc: seq<string>, ms: seq<Match>, replacement: string): (r: Outcome<seq<string>>)
    requires forall k :: 0 <= k < |ms| ==> ms[k].line < |doc|
    ensures r.Done? ==> |r.value| == |doc|
    ensures r.Done? ==> forall i :: 0 <= i < |doc| && (forall k :: 0 <= k < |ms| ==> ms[k].line != i) ==> r.value[i] == doc[i]
    decreases |ms|
  {
    if ms == [] then Done(doc)
    else
      var m := ms[|ms| - 1];
      match ReplaceMatch(doc[m.line], m, replacement)
      case OutOfRange => OutOfRange
      case Done(line) => ApplyReverse(doc[m.line := line], ms[..|ms| - 1], replacement)
  }

  /** replaceAll: search for the pattern, replace every match from the last to
      the first, empty the match list.  The index is not reset. */
  function ReplaceAll(s: SearchState, pattern: string, replacement: string, doc: seq<string>, compile: Compiler): (r: Outcome<(SearchState, seq<string>)>)
    ensures r.Done? ==> r.value.0.matches == [] && r.value.0.currentMatch == s.currentMatch
    ensures r.Done? ==> SameSettings(r.value.0, s.(lastPattern := pattern))
    ensures r.Done? ==> |r.value.1| == |doc|
    ensures MatchesFor(s, pattern, doc, compile) == [] ==> r == Done((s.(lastPattern := pattern, matches := []), doc))
  {
    var ms := MatchesFor(s, pattern, doc, compile);
    match ApplyReverse(doc, ms, replacement)
    case OutOfRange => OutOfRange
    case Done(d) => Done((s.(lastPattern := pattern, matches := []), d))
  }
}

/** Concrete searches under the default flags (case-insensitive, whole-word
    and regex mode off unless stated). */
module SearchExamples {
  import opened Wrappers
  import opened Text
  import opened Regex
  import opened SearchMatch
  import opened Search

  /** One mismatching character rules out a match at p. */
  lemma MismatchAt(line: string, pat: string, p: nat, k: nat, ignoreCase: bool, wholeWord: bool)
    requires k < |pat| && p + |pat| <= |line|
    requires !CharsEqual(line[p + k], pat[k], ignoreCase)
    ensures !LiteralMatchAt(line, pat, p, ignoreCase, wholeWord)
  {
  }

  lemma ScanXabcx()
    ensures LiteralSpans("xabcx", "abc", true, false, 0) == [Span(1, 4)]
  {
    assert !LiteralMatchAt("xabcx", "abc", 0, true, false) by {
      assert !CharsEqual("xabcx"[0], "abc"[0], true);
    }
    assert LiteralMatchAt("xabcx", "abc", 1, true, false);
    assert LiteralSpans("xabcx", "abc", true, false, 4) == [];
  }

  /** A scan from `from` finds nothing when no occurrence starts there or later. */
  lemma {:induction false} NothingFrom(line: string, pat: string, ignoreCase: bool, wholeWord: bool, from: nat)
    requires from <= |line|
    requires forall p :: from <= p && p + |pat| <= |line| ==> !LiteralMatchAt(line, pat, p, ignoreCase, wholeWord)
    ensures LiteralSpans(line, pat, ignoreCase, wholeWord, from) == []
    decreases |line| - from
  {
    if |pat| > 0 && from + |pat| <= |line| {
      NothingFrom(line, pat, ignoreCase, wholeWord, from + 1);
    }
  }

  lemma ScanNomatchOn(l: string, pat: string)
    requires l == "nomatch" && pat == "abc"
    ensures LiteralSpans(l, pat, true, false, 0) == []
  {
    forall p | 0 <= p && p + |pat| <= |l| ensures !LiteralMatchAt(l, pat, p, true, false) {
      if p == 3 {
        MismatchAt(l, pat, p, 1, true, false);
      } else {
        MismatchAt(l, pat, p, 0, true, false);
      }
    }
    NothingFrom(l, pat, true, false, 0);
  }

  lemma ScanNomatch()
    ensures LiteralSpans("nomatch", "abc", true, false, 0) == []
  {
    ScanNomatchOn("nomatch", "abc");
  }

  lemma ScanAbc()
    ensures LiteralSpans("abc", "abc", true, false, 0) == [Span(0, 3)]
  {
    assert LiteralMatchAt("abc", "abc", 0, true, false);
    assert LiteralSpans("abc", "abc", true, false, 3) == [];
  }

  lemma CollectAbcLines(lines: seq<seq<Span>>)
    requires lines == [[Span(1, 4)], [], [Span(0, 3)]]
    ensures CollectMatches(lines, 3) == [Match(0, 1, 4), Match(2, 0, 3)]
  {
    assert LineMatches(0, lines[0]) == [Match(0, 1, 4)];
    assert LineMatches(1, lines[1]) == [];
    assert LineMatches(2, lines[2]) == [Match(2, 0, 3)];
    assert CollectMatches(lines, 1) == [Match(0, 1, 4)];
    assert CollectMatches(lines, 2) == [Match(0, 1, 4)];
  }

  /** A literal search over given per-line scans collects them in line order. */
  lemma FindMatchesFromLines(pattern: string, doc: seq<string>, caseSensitive: bool, wholeWord: bool,
                             compile: Compiler, lines: seq<seq<Span>>)
    requires pattern != [] && |lines| == |doc|
    requires forall i :: 0 <= i < |doc| ==> LiteralSpans(doc[i], pattern, !caseSensitive, wholeWord, 0) == lines[i]
    ensures FindMatches(pattern, doc, caseSensitive, wholeWord, false, compile) == CollectMatches(lines, |doc|)
  {
    FindMatchesLiteral(pattern, doc, caseSensitive, wholeWord, compile);
    assert ScanLines(Literal(pattern, !caseSensitive, wholeWord), doc) == lines;
  }

  lemma AbcMatchesOn(compile: Compiler, pat: string, doc: seq<string>)
    requires pat == "abc" && doc == ["xabcx", "nomatch", "abc"]
    ensures FindMatches(pat, doc, false, false, false, compile) == [Match(0, 1, 4), Match(2, 0, 3)]
  {
    ScanXabcx();
    ScanNomatch();
    ScanAbc();
    var lines := [[Span(1, 4)], [], [Span(0, 3)]];
    CollectAbcLines(lines);
    forall i | 0 <= i < |doc| ensures LiteralSpans(doc[i], pat, true, false, 0) == lines[i] {
      if i == 0 {
      } else if i == 1 {
      } else {
        assert doc[i] == "abc";
      }
    }
    FindMatchesFromLines(pat, doc, false, false, compile, lines);
  }

  lemma AbcMatches(compile: Compiler)
    ensures FindMatches("abc", ["xabcx", "nomatch", "abc"], false, false, false, compile)
            == [Match(0, 1, 4), Match(2, 0, 3)]
  {
    AbcMatchesOn(compile, "abc", ["xabcx", "nomatch", "abc"]);
  }

  /** find "abc" on ["xabcx", "nomatch", "abc"] finds (0, 1, 4) and (2, 0, 3)
      in that order and selects the first. */
  lemma FindAbcExample(compile: Compiler)
    ensures var r := Find(NEW_SEARCH, "abc", ["xabcx", "nomatch", "abc"], compile);
            && r.1
            && r.0.matches == [Match(0, 1, 4), Match(2, 0, 3)]
            && GetCurrentMatch(r.0) == Match(0, 1, 4)
  {
    AbcMatches(compile);
  }

  /** Splicing "Z" over (2, 0, 3), then over (0, 1, 4). */
  lemma ApplyAbcOn(doc: seq<string>, ms: seq<Match>, rep: string)
    requires doc == ["xabcx", "nomatch", "abc"] && ms == [Match(0, 1, 4), Match(2, 0, 3)] && rep == "Z"
    ensures ApplyReverse(doc, ms, rep) == Done(["xZx", "nomatch", "Z"])
  {
    assert SizeSub(3, 0) == 3 && SizeSub(4, 1) == 3;
    assert doc[2][..0] + rep + doc[2][3..] == "Z";
    assert ReplaceMatch(doc[2], ms[1], rep) == Done("Z");
    var doc1 := doc[2 := "Z"];
    assert ms[..1] == [ms[0]];
    assert doc1[0][..1] + rep + doc1[0][4..] == "xZx";
    assert ReplaceMatch(doc1[0], ms[0], rep) == Done("xZx");
    var doc2 := doc1[0 := "xZx"];
    assert doc2 == ["xZx", "nomatch", "Z"];
    assert [ms[0]][..0] == [];
    assert ApplyReverse(doc2, [], rep) == Done(doc2);
    assert ApplyReverse(doc1, [ms[0]], rep) == Done(doc2);
  }

  /** replaceAll "abc" by "Z" on the same lines gives ["xZx", "nomatch", "Z"]
      and an empty match list. */
  lemma ReplaceAllAbcExample(compile: Compiler)
    ensures ReplaceAll(NEW_SEARCH, "abc", "Z", ["xabcx", "nomatch", "abc"], compile)
            == Done((NEW_SEARCH.(lastPattern := "abc"), ["xZx", "nomatch", "Z"]))
  {
    AbcMatches(compile);
    var doc := ["xabcx", "nomatch", "abc"];
    var ms := [Match(0, 1, 4), Match(2, 0, 3)];
    assert MatchesFor(NEW_SEARCH, "abc", doc, compile) == ms;
    ApplyAbcOn(doc, ms, "Z");
  }

  /** Whole-word mode: "cat" is found in "cat!" ... */
  lemma WholeWordCatFound(compile: Compiler)
    ensures FindMatches("cat", ["cat!"], false, true, false, compile) == [Match(0, 0, 3)]
  {
    assert !IsWordChar('!');
    assert LiteralMatchAt("cat!", "cat", 0, true, true);
    assert LiteralSpans("cat!", "cat", true, true, 3) == [];
    assert LiteralSpans("cat!", "cat", true, true, 0) == [Span(0, 3)];
    assert CollectMatches(ScanLines(Literal("cat", true, true), ["cat!"]), 1) == [Match(0, 0, 3)];
    FindMatchesLiteral("cat", ["cat!"], false, true, compile);
  }

  lemma ScanConcatenateOn(l: string, pat: string)
    requires l == "concatenate" && pat == "cat"
    ensures LiteralSpans(l, pat, true, true, 0) == []
  {
    forall p | 0 <= p && p + |pat| <= |l| ensures !LiteralMatchAt(l, pat, p, true, true) {
      if p == 3 {
        assert IsWordChar(l[2]) && IsWordChar(l[3]);
        assert !WordBoundaryAt(l, 3);
      } else if p == 0 {
        MismatchAt(l, pat, p, 1, true, true);
      } else {
        MismatchAt(l, pat, p, 0, true, true);
      }
    }
    NothingFrom(l, pat, true, true, 0);
  }

  /** No whole-word "cat" anywhere in "concatenate". */
  lemma ScanConcatenate()
    ensures LiteralSpans("concatenate", "cat", true, true, 0) == []
  {
    ScanConcatenateOn("concatenate", "cat");
  }

  lemma CatInConcatenate()
    ensures OccursAt("concatenate", "cat", 3, true)
  {
    var l := "concatenate";
    assert l[3] == 'c' && l[4] == 'a' && l[5] == 't';
  }

  /** ... but not inside "concatenate", where it occurs at column 3 between
      word characters. */
  lemma WholeWordCatNotInWord(compile: Compiler)
    ensures OccursAt("concatenate", "cat", 3, true)
    ensures FindMatches("cat", ["concatenate"], false, true, false, compile) == []
  {
    CatInConcatenate();
    ScanConcatenate();
    assert CollectMatches(ScanLines(Literal("cat", true, true), ["concatenate"]), 1) == [];
    FindMatchesLiteral("cat", ["concatenate"], false, true, compile);
  }

  /** Case-insensitive by default: "Cat" is found at the start of
      "cats are cute". */
  lemma CaseInsensitiveCat(compile: Compiler)
    ensures var ms := FindMatches("Cat", ["cats are cute"], false, false, false, compile);
            |ms| > 0 && ms[0] == Match(0, 0, 3)
  {
    var l := "cats are cute";
    assert ToLower('C') == 'c';
    assert LiteralMatchAt(l, "Cat", 0, true, false);
    var spans := LiteralSpans(l, "Cat", true, false, 0);
    assert spans == [Span(0, 3)] + LiteralSpans(l, "Cat", true, false, 3);
    assert CollectMatches(ScanLines(Literal("Cat", true, false), [l]), 1) == LineMatches(0, spans);
    FindMatchesLiteral("Cat", [l], false, false, compile);
  }

  /** Case-sensitively, a literal whose first character never occurs in the
      line is not found. */
  lemma {:induction false} AbsentFirstChar(line: string, pat: string, wholeWord: bool, from: nat)
    requires |pat| > 0 && pat[0] !in line && from <= |line|
    ensures LiteralSpans(line, pat, false, wholeWord, from) == []
    decreases |line| - from
  {
    if from + |pat| <= |line| {
      assert line[from + 0] in line;
      MismatchAt(line, pat, from, 0, false, wholeWord);
      AbsentFirstChar(line, pat, wholeWord, from + 1);
    }
  }

  /** With case sensitivity switched on, "Cat" is not found there. */
  lemma CaseSensitiveCat(compile: Compiler)
    ensures FindMatches("Cat", ["cats are cute"], true, false, false, compile) == []
  {
    var l := "cats are cute";
    assert 'C' !in l;
    AbsentFirstChar(l, "Cat", false, 0);
    assert CollectMatches(ScanLines(Literal("Cat", false, false), [l]), 1) == [];
    FindMatchesLiteral("Cat", [l], true, false, compile);
  }
}

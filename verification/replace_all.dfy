/** replaceAll splices the matches from the last to the first, so that each
    splice leaves the offsets of the matches still to be replaced intact.
    This module proves that the result is, line by line, the independent
    left-to-right rebuild: the text between matches kept, each match replaced. */
module ReplaceAllProofs {
  import opened Wrappers
  import opened Text
  import opened Regex
  import opened SearchMatch
  import opened Search

  /** The spans a match list holds on line i, in list order. */
  function SpansOn(ms: seq<Match>, i: nat): (r: seq<Span>)
    ensures |r| <= |ms|
    decreases |ms|
  {
    if ms == [] then []
    else
      var m := ms[|ms| - 1];
      SpansOn(ms[..|ms| - 1], i) + (if m.line == i then [Span(m.start, m.end)] else [])
  }

  /** The span list of a line is bounded by any bound on its matches' ends. */
  lemma {:induction false} SpansOnBounded(ms: seq<Match>, i: nat, bound: nat)
    requires forall j :: 0 <= j < |ms| && ms[j].line == i ==> ms[j].end <= bound
    ensures forall k :: 0 <= k < |SpansOn(ms, i)| ==> SpansOn(ms, i)[k].end <= bound
    decreases |ms|
  {
    if ms != [] {
      SpansOnBounded(ms[..|ms| - 1], i, bound);
    }
  }

  /** Dropping the last match keeps a match list well formed. */
  lemma PrefixWellFormed(ms: seq<Match>, doc: seq<string>)
    requires WellFormedMatches(ms, doc) && ms != []
    ensures WellFormedMatches(ms[..|ms| - 1], doc)
  {
  }

  /** A well-formed match list gives well-formed, size_t-sized spans on each line. */
  lemma {:induction false} SpansOnWellFormed(ms: seq<Match>, doc: seq<string>, i: nat)
    requires WellFormedMatches(ms, doc) && i < |doc|
    ensures WellFormedSpans(SpansOn(ms, i), |doc[i]|)
    ensures forall k :: 0 <= k < |SpansOn(ms, i)| ==> SpansOn(ms, i)[k].end < SIZE_MODULUS
    decreases |ms|
  {
    if ms != [] {
      var m := ms[|ms| - 1];
      var p := ms[..|ms| - 1];
      PrefixWellFormed(ms, doc);
      SpansOnWellFormed(p, doc, i);
      if m.line == i {
        assert forall j :: 0 <= j < |p| && p[j].line == i ==> p[j].end <= m.start by {
          forall j | 0 <= j < |p| && p[j].line == i
            ensures p[j].end <= m.start
          {
            assert p[j] == ms[j];
          }
        }
        SpansOnBounded(p, i, m.start);
      }
    }
  }

  /** Replace one span of a line. */
  function Splice(line: string, sp: Span, replacement: string): (r: string)
    requires sp.start <= sp.end <= |line|
    ensures |r| == |line| - (sp.end - sp.start) + |replacement|
  {
    line[..sp.start] + replacement + line[sp.end..]
  }

  /** For a match within its line and within size_t, std::string::replace is
      exactly the splice of the match. */
  lemma ReplaceMatchIsSplice(line: string, m: Match, replacement: string)
    requires m.start <= m.end <= |line| && m.end < SIZE_MODULUS
    ensures ReplaceMatch(line, m, replacement) == Done(Splice(line, Span(m.start, m.end), replacement))
  {
    assert SizeSub(m.end, m.start) == m.end - m.start;
  }

  /** One line of replaceAll: splice the spans from the last to the first. */
  function LineBackward(line: string, spans: seq<Span>, replacement: string): string
    requires WellFormedSpans(spans, |line|)
    decreases |spans|
  {
    if spans == [] then line
    else
      var l := spans[|spans| - 1];
      LineBackward(Splice(line, l, replacement), spans[..|spans| - 1], replacement)
  }

  /** The reference: copy the text before each span, then the replacement,
      left to right, and the rest of the line after the last span. */
  function Rebuild(line: string, spans: seq<Span>, replacement: string, pos: nat): string
    requires WellFormedSpans(spans, |line|) && pos <= |line|
    requires spans != [] ==> pos <= spans[0].start
    decreases |spans|
  {
    if spans == [] then line[pos..]
    else line[pos..spans[0].start] + replacement + Rebuild(line, spans[1..], replacement, spans[0].end)
  }

  /** Splicing spans in a prefix does not touch what follows it. */
  lemma {:induction false} LineBackwardAppend(p: string, t: string, spans: seq<Span>, replacement: string)
    requires WellFormedSpans(spans, |p|)
    ensures WellFormedSpans(spans, |p + t|)
    ensures LineBackward(p + t, spans, replacement) == LineBackward(p, spans, replacement) + t
    decreases |spans|
  {
    if spans != [] {
      var l := spans[|spans| - 1];
      var p' := Splice(p, l, replacement);
      assert Splice(p + t, l, replacement) == p' + t by {
        assert (p + t)[..l.start] == p[..l.start];
        assert (p + t)[l.end..] == p[l.end..] + t;
      }
      LineBackwardAppend(p', t, spans[..|spans| - 1], replacement);
    }
  }

  /** A span after all others extends a well-formed list. */
  lemma AppendSpanWellFormed(spans: seq<Span>, l: Span, n: nat)
    requires WellFormedSpans(spans, n) && l.start <= l.end <= n
    requires forall k :: 0 <= k < |spans| ==> spans[k].end <= l.start
    ensures WellFormedSpans(spans + [l], n)
  {
    var all := spans + [l];
    forall i, j | 0 <= i < j < |all|
      ensures all[i].end <= all[j].start
    {
      assert all[i] == spans[i];
      if j < |spans| {
        assert all[j] == spans[j];
      }
    }
  }

  /** A well-formed list stays well formed within any bound on its ends. */
  lemma NarrowWellFormed(spans: seq<Span>, n: nat, m: nat)
    requires WellFormedSpans(spans, n)
    requires forall k :: 0 <= k < |spans| ==> spans[k].end <= m
    ensures WellFormedSpans(spans, m)
  {
  }

  /** Peeling the only span off the reference. */
  lemma RebuildSingle(line: string, l: Span, replacement: string, pos: nat)
    requires l.start <= l.end <= |line| && pos <= l.start
    ensures Rebuild(line, [l], replacement, pos) == Rebuild(line[..l.start], [], replacement, pos) + replacement + line[l.end..]
  {
    assert [l][1..] == [];
    assert line[..l.start][pos..] == line[pos..l.start];
  }

  /** Peeling the last span off the reference. */
  lemma {:induction false} RebuildLast(line: string, spans: seq<Span>, l: Span, replacement: string, pos: nat)
    requires WellFormedSpans(spans, |line|) && l.start <= l.end <= |line|
    requires forall k :: 0 <= k < |spans| ==> spans[k].end <= l.start
    requires pos <= |line| && pos <= (if spans == [] then l.start else spans[0].start)
    ensures WellFormedSpans(spans + [l], |line|)
    ensures WellFormedSpans(spans, |line[..l.start]|)
    ensures Rebuild(line, spans + [l], replacement, pos) == Rebuild(line[..l.start], spans, replacement, pos) + replacement + line[l.end..]
    decreases |spans|
  {
    AppendSpanWellFormed(spans, l, |line|);
    NarrowWellFormed(spans, |line|, l.start);
    if spans == [] {
      assert spans + [l] == [l];
      RebuildSingle(line, l, replacement, pos);
    } else {
      var s0 := spans[0];
      var rest := spans[1..];
      assert WellFormedSpans(rest, |line|);
      assert rest != [] ==> s0.end <= rest[0].start;
      RebuildLast(line, rest, l, replacement, s0.end);
      RebuildLastStep(line, spans, l, replacement, pos);
    }
  }

  /** One unfolding of both sides of RebuildLast, given the claim for the tail. */
  lemma RebuildLastStep(line: string, spans: seq<Span>, l: Span, replacement: string, pos: nat)
    requires spans != [] && l.start <= l.end <= |line| && pos <= spans[0].start
    requires WellFormedSpans(spans + [l], |line|) && WellFormedSpans(spans, l.start)
    requires WellFormedSpans(spans[1..] + [l], |line|) && WellFormedSpans(spans[1..], l.start)
    requires Rebuild(line, spans[1..] + [l], replacement, spans[0].end)
             == Rebuild(line[..l.start], spans[1..], replacement, spans[0].end) + replacement + line[l.end..]
    ensures Rebuild(line, spans + [l], replacement, pos) == Rebuild(line[..l.start], spans, replacement, pos) + replacement + line[l.end..]
  {
    var all := spans + [l];
    var prefix := line[..l.start];
    var s0 := spans[0];
    var rest := spans[1..];
    var e := line[l.end..];
    var p := Rebuild(prefix, rest, replacement, s0.end);
    assert all[0] == s0;
    assert all[1..] == rest + [l];
    assert s0.start <= l.start;
    RebuildUnfold(line, all, replacement, pos);
    RebuildUnfold(prefix, spans, replacement, pos);
    SliceOfPrefix(line, l.start, pos, s0.start);
    calc {
      Rebuild(line, all, replacement, pos);
      line[pos..s0.start] + replacement + Rebuild(line, rest + [l], replacement, s0.end);
      line[pos..s0.start] + replacement + (p + replacement + e);
      { ConcatRegroup(line[pos..s0.start] + replacement, p, replacement, e); }
      (line[pos..s0.start] + replacement + p) + replacement + e;
      Rebuild(prefix, spans, replacement, pos) + replacement + e;
    }
  }

  lemma SliceOfPrefix(line: string, n: nat, i: nat, j: nat)
    requires i <= j <= n <= |line|
    ensures line[..n][i..j] == line[i..j]
  {
  }

  lemma ConcatRegroup(h: string, p: string, r: string, e: string)
    ensures h + (p + r + e) == (h + p) + r + e
  {
  }

  /** One step of the reference rebuild. */
  lemma RebuildUnfold(line: string, spans: seq<Span>, replacement: string, pos: nat)
    requires spans != [] && WellFormedSpans(spans, |line|) && pos <= spans[0].start
    ensures WellFormedSpans(spans[1..], |line|) && spans[0].end <= |line|
    ensures spans[1..] != [] ==> spans[0].end <= spans[1..][0].start
    ensures Rebuild(line, spans, replacement, pos)
            == line[pos..spans[0].start] + replacement + Rebuild(line, spans[1..], replacement, spans[0].end)
  {
    assert spans[1..] != [] ==> spans[1..][0] == spans[1];
  }

  /** Cutting the last span off a well-formed list: the rest is well formed
      and ends before the cut span. */
  lemma SplitLastSpan(spans: seq<Span>, n: nat)
    requires spans != [] && WellFormedSpans(spans, n)
    ensures var l := spans[|spans| - 1];
            var front := spans[..|spans| - 1];
            && spans == front + [l]
            && l.start <= l.end <= n
            && WellFormedSpans(front, n)
            && WellFormedSpans(front, l.start)
            && (forall k :: 0 <= k < |front| ==> front[k].end <= l.start)
            && (front != [] ==> front[0].start <= l.start)
  {
    var l := spans[|spans| - 1];
    var front := spans[..|spans| - 1];
    assert forall k :: 0 <= k < |front| ==> front[k] == spans[k] && front[k].end <= l.start;
    NarrowWellFormed(front, n, l.start);
  }

  /** Splicing from the back is the left-to-right rebuild. */
  lemma {:induction false} LineBackwardIsRebuild(line: string, spans: seq<Span>, replacement: string)
    requires WellFormedSpans(spans, |line|)
    ensures LineBackward(line, spans, replacement) == Rebuild(line, spans, replacement, 0)
    decreases |spans|
  {
    if spans != [] {
      var l := spans[|spans| - 1];
      var front := spans[..|spans| - 1];
      SplitLastSpan(spans, |line|);
      var p := line[..l.start];
      var t := line[l.end..];
      assert Splice(line, l, replacement) == (p + replacement) + t;
      LineBackwardAppend(p, replacement, front, replacement);
      LineBackwardAppend(p + replacement, t, front, replacement);
      LineBackwardIsRebuild(p, front, replacement);
      RebuildLast(line, front, l, replacement, 0);
      assert LineBackward(line, spans, replacement) == LineBackward((p + replacement) + t, front, replacement);
    }
  }

  /** Splicing a well-formed match list from the back never throws and acts on
      each line as the backward splice of that line's own spans. */
  lemma {:induction false} ApplyReverseIsPerLine(doc: seq<string>, ms: seq<Match>, replacement: string)
    requires WellFormedMatches(ms, doc)
    ensures ApplyReverse(doc, ms, replacement).Done?
    ensures forall i :: 0 <= i < |doc| ==>
              && WellFormedSpans(SpansOn(ms, i), |doc[i]|)
              && ApplyReverse(doc, ms, replacement).value[i] == LineBackward(doc[i], SpansOn(ms, i), replacement)
    decreases |ms|
  {
    forall i | 0 <= i < |doc|
      ensures WellFormedSpans(SpansOn(ms, i), |doc[i]|)
    {
      SpansOnWellFormed(ms, doc, i);
    }
    if ms != [] {
      var m := ms[|ms| - 1];
      var p := ms[..|ms| - 1];
      var sp := Span(m.start, m.end);
      var line' := Splice(doc[m.line], sp, replacement);
      ReplaceMatchIsSplice(doc[m.line], m, replacement);
      var doc' := doc[m.line := line'];
      assert WellFormedMatches(p, doc') by {
        forall j | 0 <= j < |p|
          ensures p[j].line < |doc'| && p[j].start <= p[j].end <= |doc'[p[j].line]| && p[j].end < SIZE_MODULUS
        {
          assert p[j] == ms[j];
        }
        PrefixWellFormed(ms, doc);
      }
      ApplyReverseIsPerLine(doc', p, replacement);
      var r := ApplyReverse(doc, ms, replacement);
      assert r == ApplyReverse(doc', p, replacement);
      forall i | 0 <= i < |doc|
        ensures r.value[i] == LineBackward(doc[i], SpansOn(ms, i), replacement)
      {
        if i == m.line {
          var front := SpansOn(p, i);
          assert SpansOn(ms, i) == front + [sp];
          assert (front + [sp])[..|front|] == front;
        } else {
          assert SpansOn(ms, i) == SpansOn(p, i);
        }
      }
    }
  }

  /** replaceAll over a well-formed match list succeeds and rebuilds every line
      from its own matches; a line without matches is unchanged. */
  lemma ReplaceAllRebuilds(s: SearchState, pattern: string, replacement: string, doc: seq<string>, compile: Compiler)
    requires WellFormedMatches(MatchesFor(s, pattern, doc, compile), doc)
    ensures ReplaceAll(s, pattern, replacement, doc, compile).Done?
    ensures var ms := MatchesFor(s, pattern, doc, compile);
            var d := ReplaceAll(s, pattern, replacement, doc, compile).value.1;
            forall i :: 0 <= i < |doc| ==>
              && WellFormedSpans(SpansOn(ms, i), |doc[i]|)
              && d[i] == Rebuild(doc[i], SpansOn(ms, i), replacement, 0)
  {
    var ms := MatchesFor(s, pattern, doc, compile);
    ApplyReverseIsPerLine(doc, ms, replacement);
    forall i | 0 <= i < |doc|
      ensures Rebuild(doc[i], SpansOn(ms, i), replacement, 0) == LineBackward(doc[i], SpansOn(ms, i), replacement)
    {
      LineBackwardIsRebuild(doc[i], SpansOn(ms, i), replacement);
    }
  }

  // ---------------------------------------------------------------------
  // The spans of a line in a collected list are that line's scan
  // ---------------------------------------------------------------------

  lemma {:induction false} SpansOnConcat(a: seq<Match>, b: seq<Match>, i: nat)
    ensures SpansOn(a + b, i) == SpansOn(a, i) + SpansOn(b, i)
    decreases |b|
  {
    if b == [] {
      assert a + b == a;
    } else {
      var b' := b[..|b| - 1];
      assert (a + b)[..|a + b| - 1] == a + b';
      SpansOnConcat(a, b', i);
    }
  }

  lemma {:induction false} SpansOnLineMatches(k: nat, spans: seq<Span>, i: nat)
    ensures SpansOn(LineMatches(k, spans), i) == if i == k then spans else []
    decreases |spans|
  {
    if spans != [] {
      var front := spans[..|spans| - 1];
      assert LineMatches(k, spans)[..|spans| - 1] == LineMatches(k, front);
      SpansOnLineMatches(k, front, i);
    }
  }

  /** Appending the matches of a later line adds that line's spans only. */
  lemma SpansOnAppendLine(a: seq<Match>, k: nat, spans: seq<Span>, i: nat)
    ensures i == k ==> SpansOn(a + LineMatches(k, spans), i) == SpansOn(a, i) + spans
    ensures i != k ==> SpansOn(a + LineMatches(k, spans), i) == SpansOn(a, i)
  {
    SpansOnConcat(a, LineMatches(k, spans), i);
    SpansOnLineMatches(k, spans, i);
    if i != k {
      assert SpansOn(a, i) + [] == SpansOn(a, i);
    }
  }

  /** A list of matches on earlier lines holds no span on line i. */
  lemma {:induction false} SpansOnBelow(a: seq<Match>, k: nat, i: nat)
    requires forall j :: 0 <= j < |a| ==> a[j].line < k
    requires k <= i
    ensures SpansOn(a, i) == []
    decreases |a|
  {
    if a != [] {
      SpansOnBelow(a[..|a| - 1], k, i);
    }
  }

  /** The last collected line contributes exactly its own scan. */
  lemma SpansOnCollectLast(lines: seq<seq<Span>>, n: nat)
    requires 0 < n <= |lines|
    ensures SpansOn(CollectMatches(lines, n), n - 1) == lines[n - 1]
  {
    var a := CollectMatches(lines, n - 1);
    SpansOnAppendLine(a, n - 1, lines[n - 1], n - 1);
    SpansOnBelow(a, n - 1, n - 1);
    assert [] + lines[n - 1] == lines[n - 1];
  }

  /** Collecting one more line leaves the spans of the earlier lines alone. */
  lemma SpansOnCollectEarlier(lines: seq<seq<Span>>, n: nat, i: nat)
    requires i + 1 < n <= |lines|
    ensures SpansOn(CollectMatches(lines, n), i) == SpansOn(CollectMatches(lines, n - 1), i)
  {
    var a := CollectMatches(lines, n - 1);
    assert CollectMatches(lines, n) == a + LineMatches(n - 1, lines[n - 1]);
    assert i != n - 1;
    SpansOnAppendLine(a, n - 1, lines[n - 1], i);
  }

  /** In a collected list, the spans of line i are exactly that line's scan. */
  lemma {:induction false} SpansOnCollect(lines: seq<seq<Span>>, n: nat, i: nat)
    requires i < n <= |lines|
    ensures SpansOn(CollectMatches(lines, n), i) == lines[i]
    decreases n
  {
    if i < n - 1 {
      SpansOnCollectEarlier(lines, n, i);
      SpansOnCollect(lines, n - 1, i);
    } else {
      SpansOnCollectLast(lines, n);
    }
  }

  /** Outside regex mode, replaceAll rebuilds every line from the literal
      matches of the pattern in that line. */
  lemma ReplaceAllLiteral(s: SearchState, pattern: string, replacement: string, doc: seq<string>, compile: Compiler)
    requires pattern != [] && !s.regexMode && Addressable(doc)
    ensures ReplaceAll(s, pattern, replacement, doc, compile).Done?
    ensures var d := ReplaceAll(s, pattern, replacement, doc, compile).value.1;
            forall i :: 0 <= i < |doc| ==>
              d[i] == Rebuild(doc[i], LiteralSpans(doc[i], pattern, !s.caseSensitive, s.wholeWord, 0), replacement, 0)
  {
    var ms := MatchesFor(s, pattern, doc, compile);
    ReplaceAllRebuilds(s, pattern, replacement, doc, compile);
    forall i | 0 <= i < |doc|
      ensures SpansOn(ms, i) == LiteralSpans(doc[i], pattern, !s.caseSensitive, s.wholeWord, 0)
    {
      SpansOnCollect(ScanLines(Literal(pattern, !s.caseSensitive, s.wholeWord), doc), |doc|, i);
    }
  }
}

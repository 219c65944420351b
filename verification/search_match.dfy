/** Match collection for MexSearch: the escaping of literal patterns, literal
    (optionally case-insensitive, optionally whole-word) matching, and the
    line-by-line collection of matches into one ordered list. */
module SearchMatch {
  import opened Wrappers
  import opened Text
  import opened Regex

  /** size_t arithmetic: offsets are unsigned 64-bit values. */
  const SIZE_MODULUS: nat := 0x1_0000_0000_0000_0000

  function SizeAdd(a: nat, b: nat): (r: nat)
    ensures r < SIZE_MODULUS
    ensures a + b < SIZE_MODULUS ==> r == a + b
  {
    (a + b) % SIZE_MODULUS
  }

  function SizeSub(a: nat, b: nat): (r: nat)
    ensures r < SIZE_MODULUS
    ensures b <= a < SIZE_MODULUS ==> r == a - b
    ensures a < b && b - a <= SIZE_MODULUS ==> r == SIZE_MODULUS - (b - a)
  {
    (a - b) % SIZE_MODULUS
  }

  /** Adding an unsigned difference that wrapped around gives the signed
      result whenever that result is a valid offset. */
  lemma SizeAddSub(x: nat, a: nat, b: nat)
    requires 0 <= x + a - b < SIZE_MODULUS
    ensures SizeAdd(x, SizeSub(a, b)) == x + a - b
  {
    var d := a - b;
    var q := d / SIZE_MODULUS;
    assert d == q * SIZE_MODULUS + d % SIZE_MODULUS;
    var y := x + a - b;
    assert x + d % SIZE_MODULUS == y - q * SIZE_MODULUS;
    assert (y - q * SIZE_MODULUS) % SIZE_MODULUS == y;
  }

  /** A match: line index and the half-open column range [start, end). */
  datatype Match = Match(line: nat, start: nat, end: nat)

  // ---------------------------------------------------------------------
  // Escaping a literal pattern (getRegexPattern)
  // ---------------------------------------------------------------------

  /** The characters with a meaning in ECMAScript patterns that the escaping
      prefixes with a backslash. */
  const META: set<char> := {'.', '^', '$', '|', '(', ')', '[', ']', '{', '}', '*', '+', '?', '\\'}

  lemma MetaHasFourteenCharacters()
    ensures |META| == 14
  {
  }

  function MetaCount(p: string): nat
  {
    if p == [] then 0 else (if p[0] in META then 1 else 0) + MetaCount(p[1..])
  }

  /** Every metacharacter gains a backslash in front; all other characters are
      copied. */
  function Escape(p: string): (r: string)
    ensures |r| == |p| + MetaCount(p)
    ensures MetaCount(p) == 0 ==> r == p
  {
    if p == [] then []
    else (if p[0] in META then ['\\', p[0]] else [p[0]]) + Escape(p[1..])
  }

  /** Reads an escaped pattern back: a backslash makes the next character
      literal. */
  function Unescape(r: string): string
    decreases |r|
  {
    if r == [] then []
    else if r[0] == '\\' && |r| >= 2 then [r[1]] + Unescape(r[2..])
    else [r[0]] + Unescape(r[1..])
  }

  lemma {:induction false} UnescapeEscape(p: string)
    ensures Unescape(Escape(p)) == p
  {
    if p != [] {
      UnescapeEscape(p[1..]);
      var e := Escape(p);
      if p[0] in META {
        assert e == ['\\', p[0]] + Escape(p[1..]);
        assert e[2..] == Escape(p[1..]);
      } else {
        assert e == [p[0]] + Escape(p[1..]);
        assert e[1..] == Escape(p[1..]);
      }
      assert p == [p[0]] + p[1..];
    }
  }

  /** In the escaped text, every metacharacter is preceded by a backslash that
      the escaping inserted: no metacharacter stands unescaped. */
  lemma {:induction false} EscapeGuardsMeta(p: string)
    ensures forall i :: 0 <= i < |Escape(p)| && Escape(p)[i] in META && Escape(p)[i] != '\\' ==>
              0 < i && Escape(p)[i - 1] == '\\'
  {
    if p != [] {
      EscapeGuardsMeta(p[1..]);
      var head := if p[0] in META then ['\\', p[0]] else [p[0]];
      var e := Escape(p);
      assert e == head + Escape(p[1..]);
      forall i | 0 <= i < |e| && e[i] in META && e[i] != '\\'
        ensures 0 < i && e[i - 1] == '\\'
      {
        if i >= |head| {
          assert e[i] == Escape(p[1..])[i - |head|];
          if i - |head| == 0 {
            assert false;
          }
        }
      }
    }
  }

  /** The pattern handed to the regex compiler outside regex mode: the
      escaped literal, wrapped in `\b` anchors in whole-word mode. */
  function RegexPattern(pattern: string, wholeWord: bool): (r: string)
    ensures wholeWord ==> |r| == |Escape(pattern)| + 4 && r[..2] == "\\b" && r[|r| - 2..] == "\\b"
    ensures wholeWord ==> r[2..|r| - 2] == Escape(pattern)
    ensures !wholeWord ==> Unescape(r) == pattern
  {
    UnescapeEscape(pattern);
    if wholeWord then WordAnchored(Escape(pattern)) else Escape(pattern)
  }

  // ---------------------------------------------------------------------
  // Literal matching
  // ---------------------------------------------------------------------

  /** Character equality, with ASCII case folding in case-insensitive mode. */
  predicate CharsEqual(a: char, b: char, ignoreCase: bool)
  {
    if ignoreCase then ToLower(a) == ToLower(b) else a == b
  }

  /** The literal occurs in the line at column p. */
  predicate OccursAt(line: string, pat: string, p: nat, ignoreCase: bool)
  {
    && p + |pat| <= |line|
    && forall k :: 0 <= k < |pat| ==> CharsEqual(line[p + k], pat[k], ignoreCase)
  }

  /** IsWordChar of ECMA-262 5.1 section 15.10.2.6 at column i, false outside the line. */
  predicate WordCharAt(line: string, i: int)
  {
    0 <= i < |line| && IsWordChar(line[i])
  }

  /** The `\b` assertion of ECMA-262 5.1 section 15.10.2.6 at column i. */
  predicate WordBoundaryAt(line: string, i: int)
  {
    WordCharAt(line, i - 1) != WordCharAt(line, i)
  }

  /** The escaped literal (wrapped in `\b` in whole-word mode) matches at p. */
  predicate LiteralMatchAt(line: string, pat: string, p: nat, ignoreCase: bool, wholeWord: bool)
  {
    && OccursAt(line, pat, p, ignoreCase)
    && (wholeWord ==> WordBoundaryAt(line, p) && WordBoundaryAt(line, p + |pat|))
  }

  /** Successive matches from column `from` on, as a regex iterator finds them:
      the leftmost match, then the next search resumes at its end. */
  function LiteralSpans(line: string, pat: string, ignoreCase: bool, wholeWord: bool, from: nat): (r: seq<Span>)
    requires from <= |line|
    ensures WellFormedSpans(r, |line|)
    ensures forall i :: 0 <= i < |r| ==>
              && from <= r[i].start
              && r[i].end == r[i].start + |pat|
              && LiteralMatchAt(line, pat, r[i].start, ignoreCase, wholeWord)
    ensures |pat| == 0 ==> r == []
    decreases |line| - from
  {
    if |pat| == 0 || from + |pat| > |line| then []
    else if LiteralMatchAt(line, pat, from, ignoreCase, wholeWord) then
      var rest := LiteralSpans(line, pat, ignoreCase, wholeWord, from + |pat|);
      PrependSpanWellFormed(Span(from, from + |pat|), rest, |line|);
      [Span(from, from + |pat|)] + rest
    else LiteralSpans(line, pat, ignoreCase, wholeWord, from + 1)
  }

  /** A span that ends before every span of a well-formed list can go in front of it. */
  lemma PrependSpanWellFormed(s: Span, rest: seq<Span>, n: nat)
    requires s.start <= s.end <= n && WellFormedSpans(rest, n)
    requires forall i :: 0 <= i < |rest| ==> s.end <= rest[i].start
    ensures WellFormedSpans([s] + rest, n)
    ensures forall i :: 0 < i <= |rest| ==> ([s] + rest)[i] == rest[i - 1]
  {
  }

  /** Some reported span contains column p. */
  ghost predicate Covered(r: seq<Span>, p: nat)
  {
    exists i :: 0 <= i < |r| && r[i].start <= p < r[i].end
  }

  lemma CoveredPrepend(s: Span, rest: seq<Span>, p: nat)
    requires Covered(rest, p)
    ensures Covered([s] + rest, p)
  {
    var i :| 0 <= i < |rest| && rest[i].start <= p < rest[i].end;
    assert ([s] + rest)[i + 1] == rest[i];
  }

  /** Every occurrence from `from` on lies inside a reported match. */
  lemma {:induction false} LiteralSpansComplete(line: string, pat: string, ignoreCase: bool, wholeWord: bool, from: nat, p: nat)
    requires from <= p && LiteralMatchAt(line, pat, p, ignoreCase, wholeWord)
    requires from <= |line| && |pat| > 0
    ensures Covered(LiteralSpans(line, pat, ignoreCase, wholeWord, from), p)
    decreases |line| - from
  {
    var r := LiteralSpans(line, pat, ignoreCase, wholeWord, from);
    if from + |pat| > |line| {
      assert false;
    } else if LiteralMatchAt(line, pat, from, ignoreCase, wholeWord) {
      var rest := LiteralSpans(line, pat, ignoreCase, wholeWord, from + |pat|);
      assert r == [Span(from, from + |pat|)] + rest;
      if p < from + |pat| {
        assert r[0].start <= p < r[0].end;
      } else {
        LiteralSpansComplete(line, pat, ignoreCase, wholeWord, from + |pat|, p);
        CoveredPrepend(Span(from, from + |pat|), rest, p);
      }
    } else {
      assert p != from;
      LiteralSpansComplete(line, pat, ignoreCase, wholeWord, from + 1, p);
    }
  }

  /** No occurrence starts between `from` and the first reported match (or
      anywhere from `from` on, when nothing is reported): the scan is leftmost. */
  lemma {:induction false} LiteralSpansLeftmost(line: string, pat: string, ignoreCase: bool, wholeWord: bool, from: nat, p: nat)
    requires from <= p && LiteralMatchAt(line, pat, p, ignoreCase, wholeWord)
    requires from <= |line| && |pat| > 0
    ensures var r := LiteralSpans(line, pat, ignoreCase, wholeWord, from);
            |r| > 0 && r[0].start <= p
    decreases |line| - from
  {
    if from + |pat| > |line| {
      assert false;
    } else if !LiteralMatchAt(line, pat, from, ignoreCase, wholeWord) {
      assert p != from;
      LiteralSpansLeftmost(line, pat, ignoreCase, wholeWord, from + 1, p);
    }
  }

  // ---------------------------------------------------------------------
  // Collecting matches over a document (findMatches)
  // ---------------------------------------------------------------------

  /** How one line is scanned: the literal matcher outside regex mode, or the
      compiled user pattern in regex mode. */
  datatype Scanner =
    | Literal(pattern: string, ignoreCase: bool, wholeWord: bool)
    | Compiled(matcher: Matcher)

  function Scan(sc: Scanner, line: string): seq<Span>
  {
    match sc
    case Literal(p, ic, ww) => LiteralSpans(line, p, ic, ww, 0)
    case Compiled(m) => m(line)
  }

  /** The spans of every line of the document, in line order. */
  function ScanLines(sc: Scanner, doc: seq<string>): (r: seq<seq<Span>>)
    ensures |r| == |doc|
    ensures forall i :: 0 <= i < |doc| ==> r[i] == Scan(sc, doc[i])
  {
    seq(|doc|, i requires 0 <= i < |doc| => Scan(sc, doc[i]))
  }

  /** Each line's spans are well formed for that line. */
  ghost predicate LinesWellFormed(lines: seq<seq<Span>>, doc: seq<string>)
  {
    |lines| == |doc| && forall i :: 0 <= i < |doc| ==> WellFormedSpans(lines[i], |doc[i]|)
  }

  /** No line has an empty span. */
  ghost predicate LinesNonEmpty(lines: seq<seq<Span>>)
  {
    forall i, k :: 0 <= i < |lines| && 0 <= k < |lines[i]| ==> lines[i][k].start < lines[i][k].end
  }

  lemma LiteralScansWellFormed(doc: seq<string>, pat: string, ignoreCase: bool, wholeWord: bool)
    requires |pat| > 0
    ensures LinesWellFormed(ScanLines(Literal(pat, ignoreCase, wholeWord), doc), doc)
    ensures LinesNonEmpty(ScanLines(Literal(pat, ignoreCase, wholeWord), doc))
  {
  }

  /** Every line is short enough for its offsets to be size_t values. */
  ghost predicate Addressable(doc: seq<string>)
  {
    forall i :: 0 <= i < |doc| ==> |doc[i]| < SIZE_MODULUS
  }

  /** A match list that describes the document: every match lies within its
      line, and the list is in line-major order without overlaps. */
  ghost predicate WellFormedMatches(ms: seq<Match>, doc: seq<string>)
  {
    && (forall i :: 0 <= i < |ms| ==>
          ms[i].line < |doc| && ms[i].start <= ms[i].end <= |doc[ms[i].line]| && ms[i].end < SIZE_MODULUS)
    && (forall i, j :: 0 <= i < j < |ms| ==>
          ms[i].line < ms[j].line || (ms[i].line == ms[j].line && ms[i].end <= ms[j].start))
  }

  /** Later matches on a line start strictly later (no empty match shares its
      start with the next one). */
  ghost predicate StrictStarts(ms: seq<Match>)
  {
    forall i, j :: 0 <= i < j < |ms| && ms[i].line == ms[j].line ==> ms[i].start < ms[j].start
  }

  function LineMatches(line: nat, spans: seq<Span>): (r: seq<Match>)
    ensures |r| == |spans|
    ensures forall k :: 0 <= k < |r| ==> r[k] == Match(line, spans[k].start, spans[k].end)
  {
    seq(|spans|, k requires 0 <= k < |spans| => Match(line, spans[k].start, spans[k].end))
  }

  /** The matches of lines 0 .. n-1, line by line, each line's in scan order. */
  function CollectMatches(lines: seq<seq<Span>>, n: nat): (r: seq<Match>)
    requires n <= |lines|
    ensures forall k :: 0 <= k < |r| ==> r[k].line < n
  {
    if n == 0 then [] else CollectMatches(lines, n - 1) + LineMatches(n - 1, lines[n - 1])
  }

  /** Appending one more line's matches keeps the list well formed. */
  lemma AppendLineWellFormed(doc: seq<string>, a: seq<Match>, n: nat, spans: seq<Span>)
    requires n < |doc| && |doc[n]| < SIZE_MODULUS
    requires WellFormedMatches(a, doc) && forall k :: 0 <= k < |a| ==> a[k].line < n
    requires WellFormedSpans(spans, |doc[n]|)
    ensures WellFormedMatches(a + LineMatches(n, spans), doc)
  {
    var b := LineMatches(n, spans);
    var r := a + b;
    forall i, j | 0 <= i < j < |r|
      ensures r[i].line < r[j].line || (r[i].line == r[j].line && r[i].end <= r[j].start)
    {
      if i >= |a| {
        assert r[i] == b[i - |a|] && r[j] == b[j - |a|];
      } else if j >= |a| {
        assert r[j] == b[j - |a|];
      }
    }
  }

  /** Appending the non-empty matches of a later line keeps starts strictly increasing. */
  lemma AppendLineStrict(a: seq<Match>, n: nat, spans: seq<Span>)
    requires StrictStarts(a) && forall k :: 0 <= k < |a| ==> a[k].line < n
    requires forall i, j :: 0 <= i < j < |spans| ==> spans[i].end <= spans[j].start
    requires forall k :: 0 <= k < |spans| ==> spans[k].start < spans[k].end
    ensures StrictStarts(a + LineMatches(n, spans))
  {
    var b := LineMatches(n, spans);
    var r := a + b;
    forall i, j | 0 <= i < j < |r| && r[i].line == r[j].line
      ensures r[i].start < r[j].start
    {
      if i >= |a| {
        assert r[i] == b[i - |a|] && r[j] == b[j - |a|];
      }
    }
  }

  lemma {:induction false} CollectMatchesWellFormed(doc: seq<string>, lines: seq<seq<Span>>, n: nat)
    requires n <= |doc| && LinesWellFormed(lines, doc) && Addressable(doc)
    ensures WellFormedMatches(CollectMatches(lines, n), doc)
    ensures LinesNonEmpty(lines) ==> StrictStarts(CollectMatches(lines, n))
  {
    if n > 0 {
      CollectMatchesWellFormed(doc, lines, n - 1);
      var a := CollectMatches(lines, n - 1);
      AppendLineWellFormed(doc, a, n - 1, lines[n - 1]);
      if LinesNonEmpty(lines) {
        AppendLineStrict(a, n - 1, lines[n - 1]);
      }
    }
  }

  /** Outside regex mode the collected matches are always well formed. */
  lemma LiteralMatchesWellFormed(doc: seq<string>, pat: string, ignoreCase: bool, wholeWord: bool)
    ensures |pat| > 0 && Addressable(doc) ==>
              var ms := CollectMatches(ScanLines(Literal(pat, ignoreCase, wholeWord), doc), |doc|);
              WellFormedMatches(ms, doc) && StrictStarts(ms)
  {
    if |pat| > 0 && Addressable(doc) {
      LiteralScansWellFormed(doc, pat, ignoreCase, wholeWord);
      CollectMatchesWellFormed(doc, ScanLines(Literal(pat, ignoreCase, wholeWord), doc), |doc|);
    }
  }

  /** The scanner findMatches uses: none for an empty pattern or a pattern the
      compiler rejects.  Outside regex mode the whole-word flag applies; in
      regex mode it is ignored. */
  function ScannerFor(pattern: string, caseSensitive: bool, wholeWord: bool, regexMode: bool, compile: Compiler): (r: Option<Scanner>)
    ensures pattern == [] ==> r.None?
    ensures pattern != [] && !regexMode ==> r == Some(Literal(pattern, !caseSensitive, wholeWord))
    ensures pattern != [] && regexMode ==>
              (r.None? <==> compile(pattern, !caseSensitive).None?)
  {
    if pattern == [] then None
    else if !regexMode then Some(Literal(pattern, !caseSensitive, wholeWord))
    else match compile(pattern, !caseSensitive)
      case None => None
      case Some(m) => Some(Compiled(m))
  }

  /** findMatches: the match list is rebuilt from scratch; it stays empty for
      an empty pattern or a compile error. */
  function FindMatches(pattern: string, doc: seq<string>, caseSensitive: bool, wholeWord: bool, regexMode: bool,
                       compile: Compiler): (r: seq<Match>)
    ensures ScannerFor(pattern, caseSensitive, wholeWord, regexMode, compile).None? ==> r == []
    ensures forall k :: 0 <= k < |r| ==> r[k].line < |doc|
    ensures pattern != [] && !regexMode && Addressable(doc) ==> WellFormedMatches(r, doc) && StrictStarts(r)
  {
    match ScannerFor(pattern, caseSensitive, wholeWord, regexMode, compile)
    case None => []
    case Some(sc) =>
      LiteralMatchesWellFormed(doc, pattern, !caseSensitive, wholeWord);
      CollectMatches(ScanLines(sc, doc), |doc|)
  }

  /** Outside regex mode findMatches is the literal scan of every line,
      collected in line order.  This only names the literal-mode case; what
      the scan finds is stated by LiteralSpans, LiteralSpansComplete and
      LiteralSpansLeftmost. */
  lemma FindMatchesLiteral(pattern: string, doc: seq<string>, caseSensitive: bool, wholeWord: bool, compile: Compiler)
    requires pattern != []
    ensures FindMatches(pattern, doc, caseSensitive, wholeWord, false, compile)
            == CollectMatches(ScanLines(Literal(pattern, !caseSensitive, wholeWord), doc), |doc|)
  {
  }
}

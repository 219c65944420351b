/** The interface of the regular-expression library, which this model does not
    re-implement: a compiler that may reject a pattern, and compiled matchers
    that enumerate the successive matches of a line. */
module Regex {
  import opened Wrappers

  /** One match: the half-open column range [start, end). */
  datatype Span = Span(start: nat, end: nat)

  /** A compiled pattern: the matches std::sregex_iterator enumerates on a line. */
  type Matcher = string -> seq<Span>

  /** std::regex construction with the ECMAScript grammar; the flag asks for
      case-insensitive matching. None stands for a thrown std::regex_error. */
  type Compiler = (string, bool) -> Option<Matcher>

  /** Spans a regex iterator can produce on a line of length n: each lies within
      the line, and they come left to right without overlapping. */
  predicate WellFormedSpans(spans: seq<Span>, n: nat)
  {
    && (forall i :: 0 <= i < |spans| ==> spans[i].start <= spans[i].end <= n)
    && (forall i, j :: 0 <= i < j < |spans| ==> spans[i].end <= spans[j].start)
  }

  /** `\b` + p + `\b`: the pattern p anchored at a word boundary on each side. */
  function WordAnchored(p: string): (r: string)
    ensures |r| == |p| + 4 && r[..2] == "\\b" && r[|r| - 2..] == "\\b"
    ensures r[2..|r| - 2] == p
  {
    "\\b" + p + "\\b"
  }
}

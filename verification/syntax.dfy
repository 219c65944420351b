/** The syntax highlighter (MexSyntax): the extension table, language
    detection, the per-language rule tables, and the selection of the coloured
    spans of one line.  Drawing is left out: highlightLine is modelled as the
    list of spans it colours, relative to the start of the line. */
module Syntax {
  import opened Wrappers
  import opened Text
  import opened Regex
  import opened SearchMatch

  /** A compiled rule: the regex, its colour pair and whether a match must
      stand as a whole word. */
  datatype HighlightRule = HighlightRule(pattern: Matcher, colorPair: int, wholeWord: bool)

  /** One coloured span: `length` characters from column `start`. */
  datatype Highlight = Highlight(start: nat, length: nat, colorPair: int)

  /** The highlighter's fields.  `currentKeywords` is only ever cleared. */
  datatype SyntaxState = SyntaxState(
    currentLanguage: string,
    languageRules: map<string, seq<HighlightRule>>,
    fileExtensions: map<string, string>,
    currentRules: seq<HighlightRule>,
    currentKeywords: set<string>)

  /** The rules registered for a language; a language without an entry has none. */
  function RulesOf(s: SyntaxState, lang: string): seq<HighlightRule>
  {
    if lang in s.languageRules then s.languageRules[lang] else []
  }

  // ---------------------------------------------------------------------
  // The extension table (initLanguages)
  // ---------------------------------------------------------------------

  /** The initializer list of the extension map, in source order.  ".h"
      appears twice. */
  const EXTENSION_ENTRIES: seq<(string, string)> := [
    (".cpp", "C++"), (".hpp", "C++"), (".h", "C++"), (".cxx", "C++"), (".cc", "C++"),
    (".c", "C"), (".h", "C"),
    (".py", "Python"),
    (".sh", "Shell"), (".bash", "Shell"),
    (".md", "Markdown")]

  /** Insert entries one after the other without overwriting a key that is
      already present, as assigning an initializer list to an unordered_map
      does. */
  function InsertEntries(m: map<string, string>, entries: seq<(string, string)>): map<string, string>
    decreases |entries|
  {
    if entries == [] then m
    else
      var m' := if entries[0].0 in m then m else m[entries[0].0 := entries[0].1];
      InsertEntries(m', entries[1..])
  }

  /** The value of the first entry with key k. */
  function FirstValue(entries: seq<(string, string)>, k: string): Option<string>
  {
    if entries == [] then None
    else if entries[0].0 == k then Some(entries[0].1)
    else FirstValue(entries[1..], k)
  }

  /** A key is in the built map iff it was there before or some entry has it;
      a key that was not there before gets the value of its FIRST entry. */
  lemma {:induction false} InsertEntriesFirstWins(m: map<string, string>, entries: seq<(string, string)>, k: string)
    ensures k in InsertEntries(m, entries) <==> k in m || FirstValue(entries, k).Some?
    ensures k in m ==> InsertEntries(m, entries)[k] == m[k]
    ensures k !in m && FirstValue(entries, k).Some? ==> InsertEntries(m, entries)[k] == FirstValue(entries, k).value
    decreases |entries|
  {
    if entries != [] {
      var m' := if entries[0].0 in m then m else m[entries[0].0 := entries[0].1];
      InsertEntriesFirstWins(m', entries[1..], k);
    }
  }

  function ExtensionTable(): map<string, string>
  {
    InsertEntries(map[], EXTENSION_ENTRIES)
  }

  // Proof helpers for ExtensionTableContents.  InsertStep and the eleven
  // ExtensionTableStep lemmas unfold the construction one entry at a time,
  // and FiveExtensions .. TenExtensions count the keys; they are split this
  // finely only to keep each obligation small for the solver.

  /** One insertion step. */
  lemma InsertStep(m: map<string, string>, entries: seq<(string, string)>, k: string, v: string)
    requires entries != [] && entries[0] == (k, v)
    ensures InsertEntries(m, entries) == InsertEntries(if k in m then m else m[k := v], entries[1..])
  {
  }

  lemma ExtensionTableStep0()
    ensures InsertEntries(map[], EXTENSION_ENTRIES[0..]) == InsertEntries(map[".cpp" := "C++"], EXTENSION_ENTRIES[1..])
  {
    assert EXTENSION_ENTRIES[0..][0] == (".cpp", "C++");
    InsertStep(map[], EXTENSION_ENTRIES[0..], ".cpp", "C++");
    assert EXTENSION_ENTRIES[0..][1..] == EXTENSION_ENTRIES[1..];
  }

  lemma ExtensionTableStep1()
    ensures InsertEntries(map[".cpp" := "C++"], EXTENSION_ENTRIES[1..]) == InsertEntries(map[".cpp" := "C++", ".hpp" := "C++"], EXTENSION_ENTRIES[2..])
  {
    assert EXTENSION_ENTRIES[1..][0] == (".hpp", "C++");
    InsertStep(map[".cpp" := "C++"], EXTENSION_ENTRIES[1..], ".hpp", "C++");
    assert EXTENSION_ENTRIES[1..][1..] == EXTENSION_ENTRIES[2..];
  }

  lemma ExtensionTableStep2()
    ensures InsertEntries(map[".cpp" := "C++", ".hpp" := "C++"], EXTENSION_ENTRIES[2..]) == InsertEntries(map[".cpp" := "C++", ".hpp" := "C++", ".h" := "C++"], EXTENSION_ENTRIES[3..])
  {
    assert EXTENSION_ENTRIES[2..][0] == (".h", "C++");
    InsertStep(map[".cpp" := "C++", ".hpp" := "C++"], EXTENSION_ENTRIES[2..], ".h", "C++");
    assert EXTENSION_ENTRIES[2..][1..] == EXTENSION_ENTRIES[3..];
  }

  lemma ExtensionTableStep3()
    ensures InsertEntries(map[".cpp" := "C++", ".hpp" := "C++", ".h" := "C++"], EXTENSION_ENTRIES[3..]) == InsertEntries(map[".cpp" := "C++", ".hpp" := "C++", ".h" := "C++", ".cxx" := "C++"], EXTENSION_ENTRIES[4..])
  {
    assert EXTENSION_ENTRIES[3..][0] == (".cxx", "C++");
    InsertStep(map[".cpp" := "C++", ".hpp" := "C++", ".h" := "C++"], EXTENSION_ENTRIES[3..], ".cxx", "C++");
    assert EXTENSION_ENTRIES[3..][1..] == EXTENSION_ENTRIES[4..];
  }

  lemma ExtensionTableStep4()
    ensures InsertEntries(map[".cpp" := "C++", ".hpp" := "C++", ".h" := "C++", ".cxx" := "C++"], EXTENSION_ENTRIES[4..]) == InsertEntries(map[".cpp" := "C++", ".hpp" := "C++", ".h" := "C++", ".cxx" := "C++", ".cc" := "C++"], EXTENSION_ENTRIES[5..])
  {
    assert EXTENSION_ENTRIES[4..][0] == (".cc", "C++");
    InsertStep(map[".cpp" := "C++", ".hpp" := "C++", ".h" := "C++", ".cxx" := "C++"], EXTENSION_ENTRIES[4..], ".cc", "C++");
    assert EXTENSION_ENTRIES[4..][1..] == EXTENSION_ENTRIES[5..];
  }

  lemma ExtensionTableStep5()
    ensures InsertEntries(map[".cpp" := "C++", ".hpp" := "C++", ".h" := "C++", ".cxx" := "C++", ".cc" := "C++"], EXTENSION_ENTRIES[5..]) == InsertEntries(map[".cpp" := "C++", ".hpp" := "C++", ".h" := "C++", ".cxx" := "C++", ".cc" := "C++", ".c" := "C"], EXTENSION_ENTRIES[6..])
  {
    assert EXTENSION_ENTRIES[5..][0] == (".c", "C");
    InsertStep(map[".cpp" := "C++", ".hpp" := "C++", ".h" := "C++", ".cxx" := "C++", ".cc" := "C++"], EXTENSION_ENTRIES[5..], ".c", "C");
    assert EXTENSION_ENTRIES[5..][1..] == EXTENSION_ENTRIES[6..];
  }

  lemma ExtensionTableStep6()
    ensures InsertEntries(map[".cpp" := "C++", ".hpp" := "C++", ".h" := "C++", ".cxx" := "C++", ".cc" := "C++", ".c" := "C"], EXTENSION_ENTRIES[6..]) == InsertEntries(map[".cpp" := "C++", ".hpp" := "C++", ".h" := "C++", ".cxx" := "C++", ".cc" := "C++", ".c" := "C"], EXTENSION_ENTRIES[7..])
  {
    assert EXTENSION_ENTRIES[6..][0] == (".h", "C");
    InsertStep(map[".cpp" := "C++", ".hpp" := "C++", ".h" := "C++", ".cxx" := "C++", ".cc" := "C++", ".c" := "C"], EXTENSION_ENTRIES[6..], ".h", "C");
    assert EXTENSION_ENTRIES[6..][1..] == EXTENSION_ENTRIES[7..];
  }

  lemma ExtensionTableStep7()
    ensures InsertEntries(map[".cpp" := "C++", ".hpp" := "C++", ".h" := "C++", ".cxx" := "C++", ".cc" := "C++", ".c" := "C"], EXTENSION_ENTRIES[7..]) == InsertEntries(map[".cpp" := "C++", ".hpp" := "C++", ".h" := "C++", ".cxx" := "C++", ".cc" := "C++", ".c" := "C", ".py" := "Python"], EXTENSION_ENTRIES[8..])
  {
    assert EXTENSION_ENTRIES[7..][0] == (".py", "Python");
    InsertStep(map[".cpp" := "C++", ".hpp" := "C++", ".h" := "C++", ".cxx" := "C++", ".cc" := "C++", ".c" := "C"], EXTENSION_ENTRIES[7..], ".py", "Python");
    assert EXTENSION_ENTRIES[7..][1..] == EXTENSION_ENTRIES[8..];
  }

  lemma ExtensionTableStep8()
    ensures InsertEntries(map[".cpp" := "C++", ".hpp" := "C++", ".h" := "C++", ".cxx" := "C++", ".cc" := "C++", ".c" := "C", ".py" := "Python"], EXTENSION_ENTRIES[8..]) == InsertEntries(map[".cpp" := "C++", ".hpp" := "C++", ".h" := "C++", ".cxx" := "C++", ".cc" := "C++", ".c" := "C", ".py" := "Python", ".sh" := "Shell"], EXTENSION_ENTRIES[9..])
  {
    assert EXTENSION_ENTRIES[8..][0] == (".sh", "Shell");
    InsertStep(map[".cpp" := "C++", ".hpp" := "C++", ".h" := "C++", ".cxx" := "C++", ".cc" := "C++", ".c" := "C", ".py" := "Python"], EXTENSION_ENTRIES[8..], ".sh", "Shell");
    assert EXTENSION_ENTRIES[8..][1..] == EXTENSION_ENTRIES[9..];
  }

  lemma ExtensionTableStep9()
    ensures InsertEntries(map[".cpp" := "C++", ".hpp" := "C++", ".h" := "C++", ".cxx" := "C++", ".cc" := "C++", ".c" := "C", ".py" := "Python", ".sh" := "Shell"], EXTENSION_ENTRIES[9..]) == InsertEntries(map[".cpp" := "C++", ".hpp" := "C++", ".h" := "C++", ".cxx" := "C++", ".cc" := "C++", ".c" := "C", ".py" := "Python", ".sh" := "Shell", ".bash" := "Shell"], EXTENSION_ENTRIES[10..])
  {
    assert EXTENSION_ENTRIES[9..][0] == (".bash", "Shell");
    InsertStep(map[".cpp" := "C++", ".hpp" := "C++", ".h" := "C++", ".cxx" := "C++", ".cc" := "C++", ".c" := "C", ".py" := "Python", ".sh" := "Shell"], EXTENSION_ENTRIES[9..], ".bash", "Shell");
    assert EXTENSION_ENTRIES[9..][1..] == EXTENSION_ENTRIES[10..];
  }

  lemma ExtensionTableStep10()
    ensures InsertEntries(map[".cpp" := "C++", ".hpp" := "C++", ".h" := "C++", ".cxx" := "C++", ".cc" := "C++", ".c" := "C", ".py" := "Python", ".sh" := "Shell", ".bash" := "Shell"], EXTENSION_ENTRIES[10..]) == InsertEntries(map[".cpp" := "C++", ".hpp" := "C++", ".h" := "C++", ".cxx" := "C++", ".cc" := "C++", ".c" := "C", ".py" := "Python", ".sh" := "Shell", ".bash" := "Shell", ".md" := "Markdown"], EXTENSION_ENTRIES[11..])
  {
    assert EXTENSION_ENTRIES[10..][0] == (".md", "Markdown");
    InsertStep(map[".cpp" := "C++", ".hpp" := "C++", ".h" := "C++", ".cxx" := "C++", ".cc" := "C++", ".c" := "C", ".py" := "Python", ".sh" := "Shell", ".bash" := "Shell"], EXTENSION_ENTRIES[10..], ".md", "Markdown");
    assert EXTENSION_ENTRIES[10..][1..] == EXTENSION_ENTRIES[11..];
  }

  /** The first five extensions are distinct strings. */
  lemma FiveExtensions()
    ensures |map[".cpp" := "C++", ".hpp" := "C++", ".h" := "C++", ".cxx" := "C++", ".cc" := "C++"]| == 5
  {
    assert ".cpp"[1] != ".hpp"[1] && ".cpp"[2] != ".cxx"[2] && ".hpp"[1] != ".cxx"[1];
    assert |".h"| == 2 && |".cc"| == 3 && |".cpp"| == 4;
  }

  /** The first eight extensions are distinct strings. */
  lemma EightExtensions()
    ensures |map[".cpp" := "C++", ".hpp" := "C++", ".h" := "C++", ".cxx" := "C++", ".cc" := "C++", ".c" := "C", ".py" := "Python", ".sh" := "Shell"]| == 8
  {
    var m5 := map[".cpp" := "C++", ".hpp" := "C++", ".h" := "C++", ".cxx" := "C++", ".cc" := "C++"];
    FiveExtensions();
    assert ".c" !in m5 by {
      assert ".h"[1] != ".c"[1];
    }
    var m6 := m5[".c" := "C"];
    assert ".py" !in m6 && ".sh" !in m6 by {
      assert ".cc"[1] != ".py"[1] && ".cc"[1] != ".sh"[1];
    }
    assert ".py"[1] != ".sh"[1];
  }

  /** The ten extensions are distinct strings. */
  lemma TenExtensions()
    ensures |map[".cpp" := "C++", ".hpp" := "C++", ".h" := "C++", ".cxx" := "C++", ".cc" := "C++", ".c" := "C", ".py" := "Python", ".sh" := "Shell", ".bash" := "Shell", ".md" := "Markdown"]| == 10
  {
    var m8 := map[".cpp" := "C++", ".hpp" := "C++", ".h" := "C++", ".cxx" := "C++", ".cc" := "C++", ".c" := "C", ".py" := "Python", ".sh" := "Shell"];
    EightExtensions();
    assert ".bash" !in m8 by {
      assert |".bash"| == 5;
    }
    var m9 := m8[".bash" := "Shell"];
    assert ".md" !in m9 by {
      assert ".cc"[1] != ".md"[1] && ".py"[1] != ".md"[1] && ".sh"[1] != ".md"[1];
    }
  }

  lemma ExtensionTableFirstHalf()
    ensures InsertEntries(map[], EXTENSION_ENTRIES) == InsertEntries(map[".cpp" := "C++", ".hpp" := "C++", ".h" := "C++", ".cxx" := "C++", ".cc" := "C++", ".c" := "C"], EXTENSION_ENTRIES[6..])
  {
    ExtensionTableStep0();
    ExtensionTableStep1();
    ExtensionTableStep2();
    ExtensionTableStep3();
    ExtensionTableStep4();
    ExtensionTableStep5();
    assert EXTENSION_ENTRIES[0..] == EXTENSION_ENTRIES;
  }

  lemma ExtensionTableSecondHalf()
    ensures InsertEntries(map[".cpp" := "C++", ".hpp" := "C++", ".h" := "C++", ".cxx" := "C++", ".cc" := "C++", ".c" := "C"], EXTENSION_ENTRIES[6..]) == map[".cpp" := "C++", ".hpp" := "C++", ".h" := "C++", ".cxx" := "C++", ".cc" := "C++", ".c" := "C", ".py" := "Python", ".sh" := "Shell", ".bash" := "Shell", ".md" := "Markdown"]
  {
    ExtensionTableStep6();
    ExtensionTableStep7();
    ExtensionTableStep8();
    ExtensionTableStep9();
    ExtensionTableStep10();
    assert EXTENSION_ENTRIES[11..] == [];
  }

  /** Building the table entry by entry; the second ".h" entry is skipped. */
  lemma ExtensionTableIs()
    ensures ExtensionTable() == map[".cpp" := "C++", ".hpp" := "C++", ".h" := "C++", ".cxx" := "C++", ".cc" := "C++", ".c" := "C", ".py" := "Python", ".sh" := "Shell", ".bash" := "Shell", ".md" := "Markdown"]
  {
    ExtensionTableFirstHalf();
    ExtensionTableSecondHalf();
  }

  /** The table has ten keys: eleven entries, of which the second ".h" is
      ignored, so ".h" files are C++. */
  lemma ExtensionTableContents()
    ensures ExtensionTable() == map[
      ".cpp" := "C++", ".hpp" := "C++", ".h" := "C++", ".cxx" := "C++", ".cc" := "C++",
      ".c" := "C", ".py" := "Python", ".sh" := "Shell", ".bash" := "Shell", ".md" := "Markdown"]
    ensures |EXTENSION_ENTRIES| == 11 && |ExtensionTable()| == 10
    ensures ExtensionTable()[".h"] == "C++"
  {
    ExtensionTableIs();
    TenExtensions();
    HeaderIsCpp();
  }

  /** In the built table ".h" keeps its first language. */
  lemma HeaderIsCpp()
    ensures map[".cpp" := "C++", ".hpp" := "C++", ".h" := "C++", ".cxx" := "C++", ".cc" := "C++", ".c" := "C", ".py" := "Python", ".sh" := "Shell", ".bash" := "Shell", ".md" := "Markdown"][".h"] == "C++"
  {
    assert ".bash"[1] != ".h"[1] && ".md"[1] != ".h"[1] && ".sh"[1] != ".h"[1] && ".py"[1] != ".h"[1] && ".c"[1] != ".h"[1];
  }

  /** The first entry with a given key names a language. */
  lemma {:induction false} FirstValueNamed(entries: seq<(string, string)>, k: string)
    requires forall i :: 0 <= i < |entries| ==> entries[i].1 != []
    ensures FirstValue(entries, k).Some? ==> FirstValue(entries, k).value != []
    decreases |entries|
  {
    if entries != [] && entries[0].0 != k {
      FirstValueNamed(entries[1..], k);
    }
  }

  /** Every entry of the initializer list names a language. */
  lemma EntriesNamed()
    ensures forall i :: 0 <= i < |EXTENSION_ENTRIES| ==> EXTENSION_ENTRIES[i].1 != []
  {
  }

  /** Every value of a table built from named entries is a name. */
  lemma InsertEntriesNamed(entries: seq<(string, string)>, ext: string)
    requires forall i :: 0 <= i < |entries| ==> entries[i].1 != []
    requires ext in InsertEntries(map[], entries)
    ensures InsertEntries(map[], entries)[ext] != []
  {
    InsertEntriesFirstWins(map[], entries, ext);
    FirstValueNamed(entries, ext);
  }

  /** Every language in the table has a non-empty name. */
  lemma EveryLanguageNamed(ext: string)
    requires ext in ExtensionTable()
    ensures ExtensionTable()[ext] != []
  {
    EntriesNamed();
    InsertEntriesNamed(EXTENSION_ENTRIES, ext);
  }

  // ---------------------------------------------------------------------
  // Language detection (detectLanguage)
  // ---------------------------------------------------------------------

  /** The suffix from the last '.' on, dot included, with ASCII letters
      lowered; None when the name has no dot. */
  function Extension(filename: string): (r: Option<string>)
    ensures r.None? <==> '.' !in filename
    ensures r.Some? ==> 1 <= |r.value| <= |filename| && r.value[0] == '.' && '.' !in r.value[1..]
    ensures r.Some? ==> forall i :: 0 <= i < |r.value| ==> !IsUpper(r.value[i])
  {
    match LastIndexOf(filename, '.')
    case None => None
    case Some(dot) =>
      var ext := LowerString(filename[dot..]);
      assert forall i :: 1 <= i < |ext| ==> ext[i] != '.' by {
        forall i | 1 <= i < |ext| ensures ext[i] != '.' {
          assert filename[dot..][i] == filename[dot + 1..][i - 1];
        }
      }
      Some(ext)
  }

  /** The extension of stem + ext is ext lowered whenever ext starts with the
      only dot it contains, whatever the stem. */
  lemma ExtensionOfSuffix(stem: string, ext: string)
    requires |ext| >= 1 && ext[0] == '.' && '.' !in ext[1..]
    ensures Extension(stem + ext) == Some(LowerString(ext))
  {
    var f := stem + ext;
    assert f[|stem|..] == ext;
    assert f[|stem| + 1..] == ext[1..];
    LastIndexOfAt(f, '.', |stem|);
  }

  /** detectLanguage: an empty name clears the language, the rules and the
      keywords; a name without a dot clears only the language; otherwise the
      lowered extension is looked up, and a hit selects that language and a
      copy of its rules while a miss clears both.  Looking the rules up with
      operator[] inserts an empty list for a language that has none. */
  function DetectLanguage(s: SyntaxState, filename: string): (r: SyntaxState)
    ensures r.fileExtensions == s.fileExtensions
    ensures forall lang :: RulesOf(r, lang) == RulesOf(s, lang)
    ensures filename == [] ==>
      r.currentLanguage == [] && r.currentRules == [] && r.currentKeywords == {}
    ensures filename != [] && '.' !in filename ==> r == s.(currentLanguage := [])
    ensures filename != [] && Extension(filename).Some? && Extension(filename).value in s.fileExtensions ==>
      var lang := s.fileExtensions[Extension(filename).value];
      r.currentLanguage == lang && r.currentRules == RulesOf(s, lang) && r.currentKeywords == s.currentKeywords
    ensures filename != [] && Extension(filename).Some? && Extension(filename).value !in s.fileExtensions ==>
      r == s.(currentLanguage := [], currentRules := [])
  {
    if |filename| == 0 then
      s.(currentLanguage := [], currentRules := [], currentKeywords := {})
    else match Extension(filename)
      case None => s.(currentLanguage := [])
      case Some(ext) =>
        if ext in s.fileExtensions then
          var lang := s.fileExtensions[ext];
          var rules := RulesOf(s, lang);
          var table := if lang in s.languageRules then s.languageRules else s.languageRules[lang := []];
          s.(currentLanguage := lang, currentRules := rules, languageRules := table)
        else
          s.(currentLanguage := [], currentRules := [])
  }

  /** Detection depends on the name only through its extension. */
  lemma DetectDependsOnlyOnExtension(s: SyntaxState, a: string, b: string)
    requires a != [] && b != [] && Extension(a) == Extension(b)
    ensures DetectLanguage(s, a) == DetectLanguage(s, b)
  {
  }

  /** Detecting the same file twice changes nothing more. */
  lemma DetectIdempotent(s: SyntaxState, filename: string)
    ensures DetectLanguage(DetectLanguage(s, filename), filename) == DetectLanguage(s, filename)
  {
  }

  // ---------------------------------------------------------------------
  // Building the rule tables (addRule, addKeyword)
  // ---------------------------------------------------------------------

  /** addRule: compile the pattern (case-sensitively) and append the rule to
      the language's list; a pattern the compiler rejects is dropped and the
      highlighter is left as it was.  `wholeWord` defaults to false. */
  function AddRule(s: SyntaxState, compile: Compiler, lang: string, pattern: string,
                   colorPair: int, wholeWord: bool := false): (r: SyntaxState)
    ensures compile(pattern, false).None? ==> r == s
    ensures compile(pattern, false).Some? ==>
      RulesOf(r, lang) == RulesOf(s, lang) + [HighlightRule(compile(pattern, false).value, colorPair, wholeWord)]
    ensures forall other :: other != lang ==> RulesOf(r, other) == RulesOf(s, other)
    ensures r == s.(languageRules := r.languageRules)
  {
    match compile(pattern, false)
    case None => s
    case Some(m) => s.(languageRules := s.languageRules[lang := RulesOf(s, lang) + [HighlightRule(m, colorPair, wholeWord)]])
  }

  /** addKeyword: a whole-word rule for `\b` + keyword + `\b`. */
  function AddKeyword(s: SyntaxState, compile: Compiler, lang: string, keyword: string, colorPair: int): (r: SyntaxState)
    ensures compile(WordAnchored(keyword), false).None? ==> r == s
    ensures compile(WordAnchored(keyword), false).Some? ==>
      RulesOf(r, lang) == RulesOf(s, lang) + [HighlightRule(compile(WordAnchored(keyword), false).value, colorPair, true)]
    ensures forall other :: other != lang ==> RulesOf(r, other) == RulesOf(s, other)
    ensures r == s.(languageRules := r.languageRules)
  {
    AddRule(s, compile, lang, WordAnchored(keyword), colorPair, true)
  }

  /** One call of the constructor's rule-building code. */
  datatype Registration =
    | RuleCall(lang: string, pattern: string, colorPair: int)
    | KeywordCall(lang: string, keyword: string, colorPair: int)

  /** The pattern handed to the compiler for a registration. */
  function CompiledPattern(reg: Registration): string
  {
    match reg
    case RuleCall(_, pattern, _) => pattern
    case KeywordCall(_, keyword, _) => WordAnchored(keyword)
  }

  function Register(s: SyntaxState, compile: Compiler, reg: Registration): SyntaxState
  {
    match reg
    case RuleCall(lang, pattern, colorPair) => AddRule(s, compile, lang, pattern, colorPair)
    case KeywordCall(lang, keyword, colorPair) => AddKeyword(s, compile, lang, keyword, colorPair)
  }

  function RegisterAll(s: SyntaxState, compile: Compiler, regs: seq<Registration>): (r: SyntaxState)
    ensures r == s.(languageRules := r.languageRules)
    decreases |regs|
  {
    if regs == [] then s else RegisterAll(Register(s, compile, regs[0]), compile, regs[1..])
  }

  /** The rule one registration contributes to the table of `lang`: none when
      it is for another language or its pattern does not compile; only
      keywords are whole-word. */
  function RuleOf(compile: Compiler, reg: Registration, lang: string): seq<HighlightRule>
  {
    match compile(CompiledPattern(reg), false)
    case Some(m) => if reg.lang == lang then [HighlightRule(m, reg.colorPair, reg.KeywordCall?)] else []
    case None => []
  }

  /** Reference for the rule table of `lang`: the contributions of its
      registrations, in order. */
  function RegisteredRules(compile: Compiler, regs: seq<Registration>, lang: string): seq<HighlightRule>
  {
    if regs == [] then [] else RuleOf(compile, regs[0], lang) + RegisteredRules(compile, regs[1..], lang)
  }

  /** One registration appends its contribution to the table of `lang`. */
  lemma RegisterOne(s: SyntaxState, compile: Compiler, reg: Registration, lang: string)
    ensures RulesOf(Register(s, compile, reg), lang) == RulesOf(s, lang) + RuleOf(compile, reg, lang)
  {
    assert Register(s, compile, reg) == AddRule(s, compile, reg.lang, CompiledPattern(reg), reg.colorPair, reg.KeywordCall?);
    match compile(CompiledPattern(reg), false)
    case None =>
      assert RulesOf(s, lang) + [] == RulesOf(s, lang);
    case Some(m) =>
      if reg.lang != lang {
        assert RulesOf(s, lang) + [] == RulesOf(s, lang);
      }
  }

  /** Registering appends, in registration order, exactly the rules that
      compile to each language's list. */
  lemma {:induction false} RegisterAllAppends(s: SyntaxState, compile: Compiler, regs: seq<Registration>, lang: string)
    ensures RulesOf(RegisterAll(s, compile, regs), lang) == RulesOf(s, lang) + RegisteredRules(compile, regs, lang)
    decreases |regs|
  {
    if regs == [] {
      assert RulesOf(s, lang) + [] == RulesOf(s, lang);
    } else {
      var s' := Register(s, compile, regs[0]);
      RegisterOne(s, compile, regs[0], lang);
      RegisterAllAppends(s', compile, regs[1..], lang);
      var a := RulesOf(s, lang);
      var b := RuleOf(compile, regs[0], lang);
      var c := RegisteredRules(compile, regs[1..], lang);
      assert (a + b) + c == a + (b + c);
    }
  }

  /** The constructor: no language selected, no current rules, the extension
      table, and the language tables built from the registrations. */
  function NewSyntax(compile: Compiler, regs: seq<Registration>): (r: SyntaxState)
    ensures r.currentLanguage == [] && r.currentRules == [] && r.currentKeywords == {}
    ensures r.fileExtensions == ExtensionTable()
    ensures forall lang :: RulesOf(r, lang) == RegisteredRules(compile, regs, lang)
  {
    var s := RegisterAll(SyntaxState([], map[], ExtensionTable(), [], {}), compile, regs);
    forall lang ensures RulesOf(s, lang) == RegisteredRules(compile, regs, lang) {
      RegisterAllAppends(SyntaxState([], map[], ExtensionTable(), [], {}), compile, regs, lang);
    }
    s
  }

  // ---------------------------------------------------------------------
  // Span selection (highlightLine)
  // ---------------------------------------------------------------------

  /** isWordBoundary: neither alphanumeric nor '_'.  In the "C" locale
      isalnum accepts exactly the ASCII letters and digits. */
  predicate IsWordBoundary(c: char): (r: bool)
    ensures r <==> !('a' <= c <= 'z' || 'A' <= c <= 'Z' || '0' <= c <= '9' || c == '_')
  {
    !IsWordChar(c)
  }

  /** The whole-word acceptance test of highlightLine for the match [start,
      end): at the start of the line or after a boundary character, and at
      the end of the line or before one.  Short-circuiting reads only indices
      inside the line. */
  predicate WholeWordAccepted(line: string, start: nat, end: nat): (r: bool)
    requires start <= end <= |line|
    ensures r <==> !WordCharAt(line, start - 1) && !WordCharAt(line, end)
  {
    && (start == 0 || IsWordBoundary(line[start - 1]))
    && (end == |line| || IsWordBoundary(line[end]))
  }

  /** For a match that begins and ends with word characters (every keyword
      match), the test agrees with ECMAScript `\b` at both ends. */
  lemma WholeWordIsWordBoundary(line: string, start: nat, end: nat)
    requires start < end <= |line|
    requires IsWordChar(line[start]) && IsWordChar(line[end - 1])
    ensures WholeWordAccepted(line, start, end) <==> WordBoundaryAt(line, start) && WordBoundaryAt(line, end)
  {
  }

  /** A match of a rule is coloured unless the rule is whole-word and the
      match fails the test. */
  predicate Accepted(rule: HighlightRule, line: string, sp: Span)
    requires sp.start <= sp.end <= |line|
  {
    !rule.wholeWord || WholeWordAccepted(line, sp.start, sp.end)
  }

  function ToHighlight(rule: HighlightRule, sp: Span): Highlight
    requires sp.start <= sp.end
  {
    Highlight(sp.start, sp.end - sp.start, rule.colorPair)
  }

  /** What the regex library guarantees of every rule: its matches on the
      line lie inside it, left to right and without overlap. */
  predicate MatchesInLine(rules: seq<HighlightRule>, line: string)
  {
    forall k :: 0 <= k < |rules| ==> WellFormedSpans(rules[k].pattern(line), |line|)
  }

  /** The accepted matches of one rule, in the order the iterator yields them:
      inside the line, ordered and disjoint, all in the rule's colour. */
  function SpanHighlights(rule: HighlightRule, line: string, spans: seq<Span>): (r: seq<Highlight>)
    requires WellFormedSpans(spans, |line|)
    ensures |r| <= |spans|
    ensures forall i :: 0 <= i < |r| ==> r[i].start + r[i].length <= |line| && r[i].colorPair == rule.colorPair
    ensures forall i :: 0 <= i < |r| ==> r[i].start >= spans[0].start
    ensures forall i, j :: 0 <= i < j < |r| ==> r[i].start + r[i].length <= r[j].start
  {
    if spans == [] then []
    else
      var here := if Accepted(rule, line, spans[0]) then [ToHighlight(rule, spans[0])] else [];
      var rest := SpanHighlights(rule, line, spans[1..]);
      here + rest
  }

  /** A highlight comes from a rule iff it is one of the rule's accepted matches. */
  lemma {:induction false} SpanHighlightsMembers(rule: HighlightRule, line: string, spans: seq<Span>, h: Highlight)
    requires WellFormedSpans(spans, |line|)
    ensures h in SpanHighlights(rule, line, spans) <==>
      exists i :: 0 <= i < |spans| && Accepted(rule, line, spans[i]) && h == ToHighlight(rule, spans[i])
    decreases |spans|
  {
    if spans != [] {
      SpanHighlightsMembers(rule, line, spans[1..], h);
      var tail := spans[1..];
      if exists i :: 0 <= i < |tail| && Accepted(rule, line, tail[i]) && h == ToHighlight(rule, tail[i]) {
        var i :| 0 <= i < |tail| && Accepted(rule, line, tail[i]) && h == ToHighlight(rule, tail[i]);
        assert spans[i + 1] == tail[i];
      }
      if exists i :: 0 <= i < |spans| && Accepted(rule, line, spans[i]) && h == ToHighlight(rule, spans[i]) {
        var i :| 0 <= i < |spans| && Accepted(rule, line, spans[i]) && h == ToHighlight(rule, spans[i]);
        if i > 0 {
          assert tail[i - 1] == spans[i];
        }
      }
    }
  }

  /** A rule that is not whole-word colours every match it has. */
  lemma {:induction false} PlainRuleColoursEveryMatch(rule: HighlightRule, line: string, spans: seq<Span>)
    requires !rule.wholeWord && WellFormedSpans(spans, |line|)
    ensures var r := SpanHighlights(rule, line, spans);
      |r| == |spans| && forall i :: 0 <= i < |r| ==> r[i] == ToHighlight(rule, spans[i])
    decreases |spans|
  {
    if spans != [] {
      PlainRuleColoursEveryMatch(rule, line, spans[1..]);
    }
  }

  /** Rule after rule, in list order, the highlights of each. */
  function RulesHighlights(rules: seq<HighlightRule>, line: string): (r: seq<Highlight>)
    requires MatchesInLine(rules, line)
    ensures forall i :: 0 <= i < |r| ==> r[i].start + r[i].length <= |line|
  {
    if rules == [] then []
    else SpanHighlights(rules[0], line, rules[0].pattern(line)) + RulesHighlights(rules[1..], line)
  }

  /** Every highlight of an earlier rule precedes every highlight of a later one. */
  lemma {:induction false} RulesHighlightsAppend(a: seq<HighlightRule>, b: seq<HighlightRule>, line: string)
    requires MatchesInLine(a + b, line)
    ensures MatchesInLine(a, line) && MatchesInLine(b, line)
    ensures RulesHighlights(a + b, line) == RulesHighlights(a, line) + RulesHighlights(b, line)
    decreases |a|
  {
    assert forall k :: 0 <= k < |a| ==> (a + b)[k] == a[k];
    assert forall k :: 0 <= k < |b| ==> (a + b)[|a| + k] == b[k];
    if a != [] {
      assert (a + b)[1..] == a[1..] + b;
      RulesHighlightsAppend(a[1..], b, line);
    } else {
      assert a + b == b;
    }
  }

  /** A highlight is produced iff some rule of the list produces it. */
  lemma {:induction false} RulesHighlightsMembers(rules: seq<HighlightRule>, line: string, h: Highlight)
    requires MatchesInLine(rules, line)
    ensures h in RulesHighlights(rules, line) <==>
      exists k :: 0 <= k < |rules| && h in SpanHighlights(rules[k], line, rules[k].pattern(line))
    decreases |rules|
  {
    if rules != [] {
      RulesHighlightsMembers(rules[1..], line, h);
      var tail := rules[1..];
      if exists k :: 0 <= k < |tail| && h in SpanHighlights(tail[k], line, tail[k].pattern(line)) {
        var k :| 0 <= k < |tail| && h in SpanHighlights(tail[k], line, tail[k].pattern(line));
        assert rules[k + 1] == tail[k];
      }
      if exists k :: 0 <= k < |rules| && h in SpanHighlights(rules[k], line, rules[k].pattern(line)) {
        var k :| 0 <= k < |rules| && h in SpanHighlights(rules[k], line, rules[k].pattern(line));
        if k > 0 {
          assert tail[k - 1] == rules[k];
        }
      }
    }
  }

  /** highlightLine: the line is drawn plain when no language is selected or
      the current rule list is empty; otherwise the current rules colour their
      accepted matches, rule by rule. */
  function HighlightLine(s: SyntaxState, line: string): (r: seq<Highlight>)
    requires MatchesInLine(s.currentRules, line)
    ensures s.currentLanguage == [] || s.currentRules == [] ==> r == []
    ensures s.currentLanguage != [] && s.currentRules != [] ==> r == RulesHighlights(s.currentRules, line)
    ensures forall i :: 0 <= i < |r| ==> r[i].start + r[i].length <= |line|
  {
    if |s.currentLanguage| == 0 || |s.currentRules| == 0 then [] else RulesHighlights(s.currentRules, line)
  }

  /** clearCache: drop the current rules and keywords; the language stays. */
  function ClearCache(s: SyntaxState): (r: SyntaxState)
    ensures r.currentRules == [] && r.currentKeywords == {}
    ensures r == s.(currentRules := r.currentRules, currentKeywords := r.currentKeywords)
  {
    s.(currentRules := [], currentKeywords := {})
  }

  /** After clearCache every line is drawn plain, until the next detection. */
  lemma ClearCacheThenPlain(s: SyntaxState, line: string)
    ensures ClearCache(s).currentLanguage == s.currentLanguage
    ensures HighlightLine(ClearCache(s), line) == []
  {
  }

  /** Opening a file with a known extension highlights with its language's
      registered rules. */
  lemma DetectThenHighlight(s: SyntaxState, filename: string, line: string)
    requires s.fileExtensions == ExtensionTable()
    requires Extension(filename).Some? && Extension(filename).value in ExtensionTable()
    requires MatchesInLine(RulesOf(s, ExtensionTable()[Extension(filename).value]), line)
    ensures var r := DetectLanguage(s, filename);
      MatchesInLine(r.currentRules, line) &&
      HighlightLine(r, line) == RulesHighlights(RulesOf(s, ExtensionTable()[Extension(filename).value]), line)
  {
    EveryLanguageNamed(Extension(filename).value);
  }

  /** A file without an extension in the table is drawn plain. */
  lemma UnknownFileIsPlain(s: SyntaxState, filename: string, line: string)
    requires Extension(filename).None? || Extension(filename).value !in s.fileExtensions
    ensures MatchesInLine(DetectLanguage(s, filename).currentRules, line) ==>
      HighlightLine(DetectLanguage(s, filename), line) == []
  {
  }
}

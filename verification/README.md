# mexEdit core in Dafny

A model of the sequential logic of mexEdit, an ncurses text editor written in
C++, with proofs of its properties. Three components are covered.

- **Edit/undo engine** (`MexEdit`). The model has a document of lines, a
  signed cursor, and a bounded history of pre-edit snapshots with an unsigned
  index. The edit operations are `insertChar`, `deleteChar`, `insertLine`,
  `deleteLine` and `expandDocument`, plus the row/column clamping of
  `moveCursor`. `saveState`, `undo` and `redo` manage the history. From
  `handleInput`, the Delete, Home and End keys are modelled. The `s/pat/rep/flags`
  parser of command mode is modelled as well. Modules: `Editor`,
  `EditorProperties`, `UndoFix`, `Command`.
- **Search and replace** (`MexSearch`).
  - `findMatches` with literal escaping (`getRegexPattern`).
  - `find`, `findNext`, `findPrevious`, `getCurrentMatch`, `clearMatches` and
    the flag setters.
  - `replaceCurrent`, including its `size_t` offset shift, and `replaceAll`,
    which applies the matches from last to first.

  Outside regex mode the search is a concrete left-to-right, non-overlapping
  literal scan. It supports ASCII case folding and ECMAScript `\b` word
  boundaries (section 15.10.2.6 of ECMA-262 5.1, where a word character is
  `[A-Za-z0-9_]`). In regex mode, the regex library is an oracle. Modules:
  `SearchMatch`, `Search`, `SearchProperties`, `ReplaceAllProofs`,
  `SearchExamples`.
- **Syntax rule engine** (`MexSyntax`). This covers the extension table and
  `detectLanguage`, the rule tables built by `addRule` and `addKeyword`, and
  the whole-word test with `isWordBoundary`. `highlightLine` is modelled as a
  pure function that returns the coloured spans `(start, length, colorPair)`,
  relative to the line. `clearCache` is also modelled. Module: `Syntax`.

Shared modules: `Wrappers` (`Option`, `Outcome`), `Text` (character classes and
lowering in the "C" locale), `Regex` (the regex-library interface).

Conventions:

- Errors that C++ raises as `std::out_of_range` are modelled as
  `Outcome.OutOfRange`. The editor never catches them, so they end the
  session.
- Undefined behaviour, such as `vector::operator[]` out of range, becomes a
  precondition. Where the editor itself can reach such a state, the trace is
  recorded under Findings.
- The command line is a NUL-terminated `char` buffer filled by `getnstr`.
  `strncmp` and `strchr` stop at the first NUL, so only the text before it is
  the command (`Command.CommandText`, `Command.ParseCommand`).
- Lines are C++ `std::string`s, that is, byte sequences. A Dafny `char`
  stands for one byte: columns, `cursorX`, match offsets and lengths all count
  bytes. A UTF-8 character loaded from a file therefore spans several
  columns, exactly as it does in the editor.
- `size_t` arithmetic is written out modulo 2^64 (`SearchMatch.SizeAdd` and
  `SearchMatch.SizeSub`).
- Compiling a regex is a parameter `compile: (pattern, ignoreCase) ->
  Option<Matcher>`. `None` stands for `std::regex_error`. A `Matcher` yields
  the spans that `std::sregex_iterator` enumerates on a line.

The code and the behaviour its own comments and interface suggest disagree in
several places. The model follows the code:

- **Undo/redo round trip.** `redo` is declared as redoing the last undone
  action (include/mexEdit.h:137), so n undos followed by n redos should
  restore the document. The code does not: see Findings.
- **Cursor clamping.** `moveCursor` (src/mexEdit.cpp:322-331) does not clamp
  the row: it ignores a move to a row outside the document. It clamps the
  column from above only, so the column can become -1, although every caller
  of the column (`insert`, `erase`, `substr`) needs it in `[0, |line|]`: see
  Findings.
- **Whole-word reads.** The highlighter's whole-word check
  (src/mexSyntax.cpp:68-70) looks like it might read outside the line. It
  does not: `||` short-circuits, so only indices inside the line are read. `Syntax.WholeWordAccepted` is
  defined only on in-bounds spans and reads nothing else.
- **Escape set.** The escape set has 14 characters:
  `. ^ $ | ( ) [ ] { } * + ? \`.

## Model

| member | source | states |
|---|---|---|
| Editor.Ctrl | include/mexEdit.h:74 | CTRL(k) lies in [0, 31] and differs from k by a multiple of 32 (the low five bits) |
| Editor.ExpandDocument | src/mexEdit.cpp:92-98 | the document grows to max(size, newSize) lines, keeps every existing line, and the added lines are empty; it never shrinks |
| Editor.SaveState | src/mexEdit.cpp:399-414 | snapshots from the index on are dropped, the pre-edit document is appended, and the oldest snapshot is evicted beyond 100; afterwards the index equals the history length (at most 100) and the last snapshot is the document |
| Editor.Undo | src/mexEdit.cpp:416-423 | no-op when the index is at most 1; otherwise the index drops by one and the document becomes the snapshot before the new index; the cursor is untouched |
| Editor.Redo | src/mexEdit.cpp:425-432 | no-op when the index is at the end of the history; otherwise the index grows by one and the document becomes the snapshot at the old index; the cursor is untouched |
| Editor.MoveCursor | src/mexEdit.cpp:322-331 | a target row outside the document leaves the cursor unchanged; otherwise the row moves and the column is min(col + dx, line length), clamped only from above |
| Editor.InsertChar | src/mexEdit.cpp:346-356 | succeeds iff the column lies in [0, line length] (a row past the end is first filled with empty lines); the line gains exactly c at the column, the column advances by one, all other lines are unchanged, and a snapshot is pushed |
| Editor.DeleteChar | src/mexEdit.cpp:358-373 | throws iff the column is beyond length + 1; removes the character left of the cursor, or at column 0 joins the line onto the previous one with the cursor at the old end of that line, or at the origin changes only the history |
| Editor.InsertLine | src/mexEdit.cpp:375-383 | succeeds iff the column is within the line; the line count grows by one, the two new lines concatenate to the old one, the first has the column's length, other lines shift unchanged, and the cursor goes to (row + 1, 0) |
| Editor.DeleteLine | src/mexEdit.cpp:385-397 | the only line is never removed; otherwise the cursor line is removed, the row is clamped to the last line and the column, from above, to the new line's length; a snapshot is always pushed |
| Editor.DeleteForward | src/mexEdit.cpp:578-588 | the Delete key: throws iff the column is negative; removes the character under the cursor, or at the end of a line pulls the next line up; the cursor and the history are untouched |
| Editor.Home | src/mexEdit.cpp:589-591 | the column becomes 0 and nothing else changes |
| Editor.End | src/mexEdit.cpp:592-594 | the column becomes the line length and nothing else changes |
| EditorProperties.InitialState | include/mexEdit.h:62-67 | the constructed editor has one empty line, the cursor at the origin, an empty history with index 0, and satisfies the state invariant |
| EditorProperties.CtrlLetters | include/mexEdit.h:74 | CTRL of a letter of either case is its position 1..26 in the alphabet |
| EditorProperties.SaveStateKeepsValid | src/mexEdit.cpp:399-414 | saveState keeps the history within capacity, the index within the history, and every snapshot non-empty |
| EditorProperties.OperationsKeepValid | src/mexEdit.cpp:346-432 | every modelled operation keeps the document non-empty and the history within its capacity of 100 |
| EditorProperties.EditsKeepRowInRange | src/mexEdit.cpp:322-397 | cursor moves and the edit operations keep the cursor row on an existing line; undo and redo do not (UndoLeavesRowPastEnd) |
| EditorProperties.UndoLeavesRowPastEnd | src/mexEdit.cpp:416-423 | Enter twice from the initial state and then undo loads [""] with the cursor left on row 2, outside the document |
| Editor.ClampCursor | src/mexEdit.cpp:391-395 | puts a non-negative row on the last line when it is past the end and bounds the column by the line length; leaves a cursor that is already on its line alone |
| Editor.UndoClamped | src/mexEdit.cpp:416-423 | corrected undo: the document and history of undo, with the row on a line of the loaded document and unchanged when it is already on one |
| Editor.RedoClamped | src/mexEdit.cpp:425-432 | corrected redo: the document and history of redo, with the row on a line of the loaded document and unchanged when it is already on one |
| EditorProperties.ClampedUndoKeepsRowInRange | src/mexEdit.cpp:416-432 | the corrected undo and redo keep every valid state valid with the cursor row on a line, and do not move a row that is still on the loaded document |
| EditorProperties.ClampedUndoOnTrace | src/mexEdit.cpp:416-423 | on the same trace the corrected undo puts the cursor at the origin of [""], where End is defined |
| EditorProperties.InsertThenDeleteChar | src/mexEdit.cpp:346-373 | insertChar followed by deleteChar restores the document and both cursor coordinates |
| EditorProperties.InsertLineThenDeleteChar | src/mexEdit.cpp:358-383 | insertLine followed by a backspace at column 0 joins the halves back into the original document and restores the cursor |
| EditorProperties.DeleteCharAtOrigin | src/mexEdit.cpp:358-373 | backspace at (0, 0) changes neither the document nor the cursor, yet pushes a snapshot of the document |
| EditorProperties.DeleteLineKeepsALine | src/mexEdit.cpp:385-397 | deleteLine leaves max(1, count - 1) lines |
| EditorProperties.UndoThenRedo | src/mexEdit.cpp:416-432 | undo then redo restores the history index but leaves the snapshot taken before the latest edit, not the pre-undo document |
| EditorProperties.RedoThenUndo | src/mexEdit.cpp:416-432 | redo then undo returns to the same index and the snapshot before it |
| EditorProperties.FirstEditCannotBeUndone | src/mexEdit.cpp:416-423 | after the first keystroke from the initial state, undo does nothing |
| EditorProperties.MoveLeftGoesNegative | src/mexEdit.cpp:322-331 | moving left keeps subtracting one from the column, to -1 at column 0 |
| EditorProperties.LeftAtOriginThenTypeExits | src/mexEdit.cpp:322-356 | Left at the origin sets the column to -1, and the next typed character makes insert throw |
| EditorProperties.MoveCursorClamped | src/mexEdit.cpp:322-331 | the corrected move clamps the column into [0, line length], moves exactly by (dx, dy) when the target is valid, and keeps the row when the target row is outside |
| EditorProperties.ClampedMoveThenTypeSucceeds | src/mexEdit.cpp:346-356 | after the corrected move, insertChar never throws |
| EditorProperties.ExpandDocumentIdempotent | src/mexEdit.cpp:92-98 | expanding twice to the same size equals expanding once |
| UndoFix.UndoRedoLosesLatestEdit | src/mexEdit.cpp:416-432 | typing "a", "b" then undo and redo gives ["a"], not the ["ab"] the undo started from |
| UndoFix.UndoFixed | src/mexEdit.cpp:416-423 | the corrected undo records the current document before the first step back, steps back one snapshot and loads it, and keeps the invariant that the snapshot at the index is the current document |
| UndoFix.RedoFixed | src/mexEdit.cpp:425-432 | the corrected redo steps forward onto the next snapshot and loads it, keeping the same invariant |
| UndoFix.SaveStateIsRedoReady | src/mexEdit.cpp:399-414 | every edit leaves the history in the state the corrected pair expects |
| UndoFix.UndoThenRedoFixed | src/mexEdit.cpp:416-432 | one corrected undo and redo give back the state, apart from the newly recorded snapshot |
| UndoFix.UndoRedoRoundTrip | src/mexEdit.cpp:416-432 | n corrected undos followed by n redos restore the document, the index and the cursor |
| UndoFix.FixedUndoRedoKeepsLatestEdit | src/mexEdit.cpp:416-432 | on the same keystrokes the corrected undo gives ["a"] and redo gives ["ab"] back |
| Command.SplitAtFirst | src/mexEdit.cpp:491-496 | cutting at the first `/` (strchr): None iff there is none; otherwise the text before contains no `/` and before + `/` + after is the input |
| Command.SplitAtFirstUnique | src/mexEdit.cpp:491-496 | the cut of a + `/` + b with no `/` in a is (a, b) |
| Command.ParseSubstitution | src/mexEdit.cpp:488-502 | a command is a substitution iff it starts with `s/` and has a further `/`; pattern and replacement contain no `/`, and re-rendering the parts gives the command back |
| Command.ParseFormat | src/mexEdit.cpp:488-502 | parsing the rendering of a substitution whose pattern and replacement contain no `/` yields it back |
| Command.ReplaceAllFlag | src/mexEdit.cpp:495-498 | replace-all holds iff a `g` occurs after the third `/` |
| Command.CommandText | src/mexEdit.cpp:482-488 | the command is the buffer's text before its first NUL: a NUL-free prefix of the buffer followed by a NUL or the end |
| Command.ParseCommand | src/mexEdit.cpp:485-502 | a NUL-free buffer parses as it stands; a parsed command is a NUL-free prefix of the buffer |
| Command.ParseCommandStopsAtNul | src/mexEdit.cpp:485-502 | "s/a", NUL, "/b" is not a substitution, although the whole buffer would parse as one |
| SearchMatch.SizeAdd | src/mexSearch.cpp:121-122 | size_t addition: below 2^64 and equal to the sum when that fits |
| SearchMatch.SizeSub | src/mexSearch.cpp:116 | size_t subtraction: the difference when non-negative, 2^64 minus the deficit otherwise |
| SearchMatch.SizeAddSub | src/mexSearch.cpp:116-122 | adding a wrapped size_t difference equals the signed result whenever that result is a valid offset |
| SearchMatch.MetaHasFourteenCharacters | src/mexSearch.cpp:53 | the escaped character class has 14 members |
| SearchMatch.Escape | src/mexSearch.cpp:53-56 | the escaped text grows by one character per metacharacter and is the input when there is none |
| SearchMatch.UnescapeEscape | src/mexSearch.cpp:49-57 | reading the escaped pattern back gives the input |
| SearchMatch.EscapeGuardsMeta | src/mexSearch.cpp:53-56 | every metacharacter in the escaped text is preceded by a backslash |
| SearchMatch.RegexPattern | src/mexSearch.cpp:49-57 | whole-word wraps the escaped pattern in `\b` on both sides; otherwise the result unescapes to the pattern |
| SearchMatch.LiteralSpans | src/mexSearch.cpp:34-40 | the literal matches of a line are in bounds, ordered and disjoint, each has the pattern's length and matches at its start (case folding, `\b` anchors); an empty pattern gives none |
| SearchMatch.LiteralSpansComplete | src/mexSearch.cpp:34-40 | every occurrence of the pattern lies inside a reported match |
| SearchMatch.LiteralSpansLeftmost | src/mexSearch.cpp:34-40 | no occurrence starts before the first reported match |
| SearchMatch.CollectMatches | src/mexSearch.cpp:31-41 | matches are collected line by line and every match names a line of the document |
| SearchMatch.CollectMatchesWellFormed | src/mexSearch.cpp:31-41 | well-formed per-line spans collect into a line-major, ordered, non-overlapping list within the lines |
| SearchMatch.LiteralMatchesWellFormed | src/mexSearch.cpp:15-47 | outside regex mode the collected list is well formed with strictly increasing starts per line |
| SearchMatch.ScannerFor | src/mexSearch.cpp:18-29 | an empty pattern or a rejected regex gives no scanner; the literal scanner folds case unless case-sensitive; regex mode ignores whole-word |
| SearchMatch.FindMatches | src/mexSearch.cpp:15-47 | the list is rebuilt: empty for an empty pattern or compile error, every match names a document line, and it is well formed outside regex mode |
| SearchMatch.FindMatchesLiteral | src/mexSearch.cpp:15-47 | outside regex mode findMatches is the literal scan of every line in line order |
| Search.NewSearchDefaults | src/mexSearch.cpp:6-13 | a new search has no matches, index 0, and case sensitivity, whole-word and regex mode off |
| Search.Find | src/mexSearch.cpp:59-65 | find records the pattern, replaces the list, returns whether it is non-empty, and selects match 1 or 0 |
| Search.NavigationMatches | src/mexSearch.cpp:69-75 | navigation keeps a non-empty list, and otherwise searches the last pattern again (nothing when there is none) |
| Search.FindNext | src/mexSearch.cpp:67-84 | false iff there is nothing to navigate; on true the index is in range, advances by one from any index below the list length (including 0 after a fresh search), and wraps from the last match to the first |
| Search.FindPrevious | src/mexSearch.cpp:86-106 | false iff there is nothing to navigate; 0 and 1 go to the last match, anything else is decremented |
| Search.FindPreviousFixed | src/mexSearch.cpp:86-106 | the corrected version: on true the index always denotes a match |
| Search.GetCurrentMatch | src/mexSearch.cpp:145-152 | the match at position index - 1 when the index denotes one, (0, 0, 0) otherwise |
| SearchProperties.FindSelectsFirst | src/mexSearch.cpp:145-152 | after a successful find the current match is the first match of the new list |
| SearchProperties.FindNextSelectsCurrent | src/mexSearch.cpp:145-152 | after a successful findNext the current match is a match of the list, the one the index names |
| Search.ClearMatches | src/mexSearch.cpp:154-158 | the list empties and the index resets to 0; the last pattern and the flags survive |
| Search.SetCaseSensitive | src/mexSearch.cpp:160-163 | sets its flag and changes nothing else |
| Search.SetWholeWord | src/mexSearch.cpp:165-168 | sets its flag and changes nothing else |
| Search.SetRegexMode | src/mexSearch.cpp:170-173 | sets its flag and changes nothing else |
| Search.StringReplace | src/mexSearch.cpp:114 | std::string::replace throws iff the position is past the end; otherwise the prefix is kept, the text inserted, and the suffix after the clipped count kept |
| Search.Shift | src/mexSearch.cpp:117-124 | only same-line matches starting after the replaced one move; the line never changes |
| Search.ReplaceCurrent | src/mexSearch.cpp:108-125 | no-op unless the index denotes a match; throws iff that match starts past its line's end; otherwise only that line changes, and the list keeps its length, lines, index and settings |
| Search.ApplyReverse | src/mexSearch.cpp:132-136 | splicing from the last match to the first keeps the line count and leaves lines without matches unchanged |
| Search.ReplaceAll | src/mexSearch.cpp:127-138 | replaceAll records the pattern, empties the list without resetting the index, keeps the line count, and returns the document unchanged when nothing matches |
| SearchProperties.NextThenPrevious | src/mexSearch.cpp:67-106 | findNext then findPrevious returns to the same state |
| SearchProperties.PreviousThenNext | src/mexSearch.cpp:67-106 | findPrevious then findNext returns to the same state |
| SearchProperties.NextNCycles | src/mexSearch.cpp:77-81 | n findNext calls within one round advance the index by n, cyclically |
| SearchProperties.NextAllTheWayRound | src/mexSearch.cpp:77-81 | as many findNext calls as matches bring the state back |
| SearchProperties.FindNextWraps | src/mexSearch.cpp:77-81 | from the last of two matches findNext selects the first |
| SearchProperties.FindPreviousStaleIndex | src/mexSearch.cpp:96-103 | with an index left beyond a re-searched list, findPrevious reports success with an index that denotes no match |
| SearchProperties.FindPreviousFixedStaleIndex | src/mexSearch.cpp:96-103 | the corrected findPrevious lands on the last match instead |
| SearchProperties.FindPreviousFixedAgrees | src/mexSearch.cpp:86-106 | both versions agree whenever the index starts in range, including an empty list that is searched again |
| SearchProperties.FindAThenStepTwice | src/mexSearch.cpp:59-84 | finding "a" in ["aaa"] and stepping twice selects the third of three matches |
| SearchProperties.ReplaceAllAaInAaa | src/mexSearch.cpp:127-138 | replaceAll "aa" by "a" on ["aaa"] gives ["aa"] |
| SearchProperties.StaleIndexAfterReplaceAll | src/mexSearch.cpp:127-138 | after that replaceAll, findPrevious reports success with index 2 of 1 match, and getCurrentMatch is (0, 0, 0) |
| SearchProperties.FindPreviousOnAa | src/mexSearch.cpp:86-106 | findPrevious on ["aa"] with index 3 re-searches and decrements to 2 |
| SearchProperties.ShiftIsSigned | src/mexSearch.cpp:116-122 | the size_t shift equals the signed shift by |replacement| - (end - start) when the result is valid |
| SearchProperties.ShiftedMatchSameText | src/mexSearch.cpp:114-124 | a later match on the spliced line, shifted, denotes the same text |
| SearchProperties.ReplaceCurrentKeepsOtherMatches | src/mexSearch.cpp:108-125 | replaceCurrent on a well-formed list puts the replacement at the match start, and every other match stays on its line, in bounds, and denotes the same text |
| ReplaceAllProofs.ReplaceMatchIsSplice | src/mexSearch.cpp:135 | replacing an in-bounds match is prefix + replacement + suffix |
| ReplaceAllProofs.LineBackwardIsRebuild | src/mexSearch.cpp:132-136 | splicing a line's matches from last to first equals rebuilding it left to right from the same matches |
| ReplaceAllProofs.ApplyReverseIsPerLine | src/mexSearch.cpp:132-136 | reverse application over the document acts on each line independently with that line's matches |
| ReplaceAllProofs.ReplaceAllRebuilds | src/mexSearch.cpp:127-138 | replaceAll on a well-formed list succeeds and rebuilds every line left to right from its own matches |
| ReplaceAllProofs.SpansOnCollect | src/mexSearch.cpp:31-41 | the matches of line i in a collected list are exactly line i's spans |
| ReplaceAllProofs.ReplaceAllLiteral | src/mexSearch.cpp:127-138 | outside regex mode replaceAll never throws and replaces, on every line, exactly the literal matches of the pattern |
| SearchExamples.FindAbcExample | src/mexSearch.cpp:59-65 | find "abc" in ["xabcx", "nomatch", "abc"] gives (0, 1, 4) and (2, 0, 3) and selects the first |
| SearchExamples.ReplaceAllAbcExample | src/mexSearch.cpp:127-138 | replaceAll "abc" by "Z" gives ["xZx", "nomatch", "Z"] and an empty list |
| SearchExamples.WholeWordCatFound | src/mexSearch.cpp:51-53 | whole-word "cat" is found in "cat!" |
| SearchExamples.WholeWordCatNotInWord | src/mexSearch.cpp:51-53 | whole-word "cat" is not found in "concatenate" although it occurs there |
| SearchExamples.CaseInsensitiveCat | src/mexSearch.cpp:22-25 | by default "Cat" is found at the start of "cats are cute" |
| SearchExamples.CaseSensitiveCat | src/mexSearch.cpp:22-25 | case-sensitively it is not found |
| Syntax.InsertEntriesFirstWins | src/mexSyntax.cpp:82-88 | a key is in the built table iff some entry has it, and it maps to the value of its first entry |
| Syntax.ExtensionTableContents | src/mexSyntax.cpp:82-88 | the table has 10 keys from 11 entries, and ".h" maps to C++ |
| Syntax.Extension | src/mexSyntax.cpp:25-33 | None iff the name has no dot; otherwise the suffix from the last dot, which holds no further dot and no upper-case letter |
| Syntax.ExtensionOfSuffix | src/mexSyntax.cpp:25-33 | the extension of stem + ".ext" is ".ext" lowered, whatever the stem |
| Syntax.DetectLanguage | src/mexSyntax.cpp:15-46 | an empty name clears language, rules and keywords; a name without a dot clears only the language; a hit selects the language and its rules; a miss clears both; the rule tables are unchanged |
| Syntax.DetectDependsOnlyOnExtension | src/mexSyntax.cpp:25-45 | two non-empty names with the same extension select the same state |
| Syntax.DetectIdempotent | src/mexSyntax.cpp:15-46 | detecting the same name twice is detecting it once |
| Syntax.AddRule | src/mexSyntax.cpp:287-301 | a pattern that compiles appends its rule to that language's list only; one that does not leaves the state unchanged; nothing else changes |
| Syntax.AddKeyword | src/mexSyntax.cpp:303-307 | a keyword whose `\b`-anchored pattern compiles appends exactly that whole-word rule with its colour after the language's existing rules; a compile error leaves the highlighter unchanged; other languages and fields are untouched |
| Syntax.RegisterAllAppends | src/mexSyntax.cpp:287-301 | registering appends to each language exactly the rules that compile, in registration order, and only keywords are whole-word |
| Syntax.NewSyntax | src/mexSyntax.cpp:5-13 | a new highlighter has no language, no current rules, the extension table, and each language's registered rules |
| Syntax.IsWordBoundary | src/mexSyntax.cpp:309-312 | holds iff the character is neither an ASCII letter or digit (isalnum in the "C" locale) nor '_' |
| Syntax.WholeWordAccepted | src/mexSyntax.cpp:68-70 | the match [start, end) is accepted iff no word character precedes it and none follows it inside the line; only in-line indices are read |
| Syntax.WholeWordIsWordBoundary | src/mexSyntax.cpp:68-70 | for a match that begins and ends with word characters, the whole-word test agrees with `\b` at both ends |
| Syntax.SpanHighlights | src/mexSyntax.cpp:63-76 | one rule's highlights are in the line, in its colour, ordered and disjoint, at most one per match |
| Syntax.SpanHighlightsMembers | src/mexSyntax.cpp:63-76 | a highlight comes from a rule iff it is one of the rule's accepted matches |
| Syntax.PlainRuleColoursEveryMatch | src/mexSyntax.cpp:68 | a rule that is not whole-word colours every match |
| Syntax.RulesHighlights | src/mexSyntax.cpp:58-77 | the highlights of a rule list lie within the line |
| Syntax.RulesHighlightsAppend | src/mexSyntax.cpp:58-77 | highlights come rule by rule in list order: those of earlier rules precede those of later rules |
| Syntax.RulesHighlightsMembers | src/mexSyntax.cpp:58-77 | a highlight is produced iff some rule of the list produces it |
| Syntax.HighlightLine | src/mexSyntax.cpp:48-78 | nothing is coloured without a language or rules; otherwise the current rules colour their accepted matches rule by rule (`RulesHighlights`); every coloured span lies within the line |
| Syntax.ClearCache | src/mexSyntax.cpp:321-325 | the current rules and keywords empty; the language and tables are kept |
| Syntax.ClearCacheThenPlain | include/mexSyntax.h:36-39 | after clearCache the language is kept and every line is drawn plain |
| Syntax.DetectThenHighlight | src/mexSyntax.cpp:35-40 | opening a file with a known extension highlights with that language's registered rules |
| Syntax.UnknownFileIsPlain | src/mexSyntax.cpp:17-45 | a name without a known extension is drawn plain |

## Left out

- Screen output: `drawInterface`, `showSearchStatus`, the colour-pair setup, the `editorScroll` adjustment in `moveCursor` (src/mexEdit.cpp:333-343), `applyHighlight`, and the drawing in `highlightLine`. The highlighter returns line-relative spans instead of drawing them.
- File and directory I/O: `loadFile`, `saveFile`, `updateFileExplorer` and `promptSaveBeforeExit`. These are interactive or depend on the filesystem. Only their guarantee that the document is never empty is kept, in `Editor.Valid`.
- The `std::regex` engine: a foreign library, represented by the `Regex.Compiler` and `Regex.Matcher` parameters. Regex-mode searches and highlighting rules are therefore proved only relative to what the oracle returns.
- Keystroke dispatch apart from the Delete, Home and End keys, the search-mode input buffer, the static `escapePressed` flag, `run`, the menu and the process entry point. These are interactive loops and UI callbacks.
- `performReplace`: the effect of an executed command is not modelled, only its parsing. The 255-character limit of `getnstr` is not modelled either, because it is terminal input.
- The per-language keyword and rule lists, which are data. `Syntax.NewSyntax` takes the sequence of registrations as a parameter.
- `Syntax.HighlightLine`: the screen column `startCol` and the `int` conversions of match positions are left out. Spans are relative to the line.
- `Syntax.HighlightLine`: the regex library must report matches inside the line (`Syntax.MatchesInLine`). This is stated as a precondition rather than proved, because the library is an oracle.
- `SearchMatch.FindMatches`: well-formedness of the list is proved only outside regex mode. In regex mode it is a property of the regex library.
- `SearchProperties.ReplaceCurrentKeepsOtherMatches`: assumes strictly increasing starts within a line (`SearchMatch.StrictStarts`). A regex-mode list that has an empty match at the same column as the next match breaks this assumption. In that case the source's `>` test leaves the later match unshifted, and that case is not covered.
- `Search.FindNext`: the `size_t` wrap of `currentMatch++` at 2^64 is not modelled.
- `Editor.MoveCursor`: `cursorX + dx` and `cursorY + dy` are unbounded integers. Signed 32-bit overflow, which is undefined behaviour, is not modelled.
- `UndoFix.UndoFixed`: the corrected history may hold one snapshot beyond the capacity of 100, namely the document recorded by the first undo.
- The two undo corrections are kept apart: the cursor correction (`Editor.UndoClamped`, `Editor.RedoClamped`) and the history correction (`UndoFix.UndoFixed`, `UndoFix.RedoFixed`). The history correction keeps the cursor as written, so its round trip can restore the cursor exactly.

## Findings

| source | as written | input that shows it | evidently intended | confidence | as-written member | corrected member |
|---|---|---|---|---|---|---|
| src/mexEdit.cpp:416-432 | undo loads `history[index-1]` after decrementing, and the document current at the first undo is never recorded, so undo then redo returns the snapshot taken before the latest edit | type "a" then "b" from the initial state (document ["ab"]); undo gives [""], redo gives ["a"] | n undos followed by n redos restore the document | high (proved on the model; not executed) | UndoFix.UndoRedoLosesLatestEdit | UndoFix.UndoRedoRoundTrip |
| src/mexEdit.cpp:330 | the column is clamped only from above, so Left at column 0 sets it to -1 and the next `insert` throws `std::out_of_range`, which ends the editor | initial state, Left, then type any character | the column is clamped into [0, line length] | high (proved on the model; not executed) | EditorProperties.LeftAtOriginThenTypeExits | EditorProperties.ClampedMoveThenTypeSucceeds |
| src/mexEdit.cpp:416-423 | undo loads an earlier snapshot but keeps the cursor, and the Ctrl-Z handler (src/mexEdit.cpp:686-688) does not clamp it, so the row can lie past the end of the loaded document; the next Backspace, Enter, Delete or End indexes a line that does not exist, which is undefined behaviour | initial state, Enter, Enter, Ctrl-Z: document [""], cursor row 2 | undo and redo put the cursor back on the loaded document, as deleteLine does | high (proved on the model; not executed) | EditorProperties.UndoLeavesRowPastEnd | EditorProperties.ClampedUndoKeepsRowInRange |
| src/mexSearch.cpp:96-103 | after replaceAll the list is empty but the index is kept; findPrevious re-searches and decrements an index that may exceed the new list, reports success, and getCurrentMatch returns (0, 0, 0). The editor cannot reach this today: nothing in src/mexEdit.cpp calls findPrevious, and the replace command runs find, which resets the index, before replaceAll; it is a defect of the search interface | ["aaa"]: find "a", findNext twice (index 3), replaceAll "aa" by "a" (["aa"]), findPrevious: 1 match, index 2 | an index beyond the list is treated like 0 and lands on the last match | high (proved on the model; not executed) | SearchProperties.StaleIndexAfterReplaceAll | SearchProperties.FindPreviousFixedStaleIndex |

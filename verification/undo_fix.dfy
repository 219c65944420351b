/** Undo and redo as written lose the latest edit: undo loads the snapshot two
    places back, and redo can never return to the document the undo started
    from, because that document was never recorded.  This module exhibits the
    discrepancy on a reachable state and gives a corrected pair, which records
    the current document on the first undo and moves the index onto the
    snapshot it loads. */
module UndoFix {
  import opened Wrappers
  import opened Editor

  /** Two keystrokes from the initial state, then undo and redo. */
  lemma UndoRedoLosesLatestEdit()
    ensures InsertChar(INITIAL, 'a').Done?
    ensures InsertChar(InsertChar(INITIAL, 'a').value, 'b').Done?
    ensures var ed := InsertChar(InsertChar(INITIAL, 'a').value, 'b').value;
            && ed.document == ["ab"]
            && Undo(ed).document == [""]
            && Redo(Undo(ed)).document == ["a"]
            && Redo(Undo(ed)).document != ed.document
  {
    var ed1 := InsertChar(INITIAL, 'a').value;
    assert ed1.document[0][..0] + ed1.document[0][1..] == "";
    assert ed1.document[0] == "a";
    assert ed1.document == ["a"];
    assert ed1.history == History([[""]], 1);
    var ed := InsertChar(ed1, 'b').value;
    assert ed.document[0][..1] + ed.document[0][2..] == "a";
    assert |ed.document[0]| == 2;
    assert ed.document[0] == "ab";
    assert ed.document == ["ab"];
    assert ed.history == History([[""], ["a"]], 2);
  }

  /** The corrected history discipline: a snapshot at the index, when there is
      one, is the current document, so redo can return to it. */
  ghost predicate RedoReady(ed: Editor)
  {
    && ed.history.index <= |ed.history.snapshots|
    && (ed.history.index < |ed.history.snapshots| ==> ed.history.snapshots[ed.history.index] == ed.document)
  }

  /** Corrected undo: the first undo after an edit records the current
      document; every undo then steps back one snapshot and loads it. */
  function UndoFixed(ed: Editor): (r: Editor)
    requires RedoReady(ed)
    ensures RedoReady(r)
    ensures ed.history.index == 0 ==> r == ed
    ensures ed.history.index > 0 ==>
              && r.history.index == ed.history.index - 1
              && r.document == ed.history.snapshots[ed.history.index - 1]
              && ed.history.index < |r.history.snapshots| && r.history.snapshots[ed.history.index] == ed.document
    ensures r.cursorX == ed.cursorX && r.cursorY == ed.cursorY
  {
    if ed.history.index > 0 then
      var snapshots := if ed.history.index == |ed.history.snapshots| then ed.history.snapshots + [ed.document]
                       else ed.history.snapshots;
      var idx := ed.history.index - 1;
      ed.(document := snapshots[idx], history := History(snapshots, idx))
    else ed
  }

  /** Corrected redo: step forward onto the next snapshot and load it. */
  function RedoFixed(ed: Editor): (r: Editor)
    requires RedoReady(ed)
    ensures RedoReady(r)
    ensures ed.history.index + 1 >= |ed.history.snapshots| ==> r == ed
    ensures ed.history.index + 1 < |ed.history.snapshots| ==>
              && r.history == History(ed.history.snapshots, ed.history.index + 1)
              && r.document == ed.history.snapshots[ed.history.index + 1]
    ensures r.cursorX == ed.cursorX && r.cursorY == ed.cursorY
  {
    if ed.history.index + 1 < |ed.history.snapshots| then
      var idx := ed.history.index + 1;
      ed.(document := ed.history.snapshots[idx], history := ed.history.(index := idx))
    else ed
  }

  /** An edit leaves a state redo-ready: the index sits at the end of the history. */
  lemma SaveStateIsRedoReady(ed: Editor)
    requires Valid(ed)
    ensures RedoReady(ed.(history := SaveState(ed.history, ed.document)))
  {
  }

  function UndoN(ed: Editor, n: nat): (r: Editor)
    requires RedoReady(ed)
    ensures RedoReady(r)
    decreases n
  {
    if n == 0 then ed else UndoN(UndoFixed(ed), n - 1)
  }

  function RedoN(ed: Editor, n: nat): (r: Editor)
    requires RedoReady(ed)
    ensures RedoReady(r)
    decreases n
  {
    if n == 0 then ed else RedoN(RedoFixed(ed), n - 1)
  }

  /** Peeling the last redo off instead of the first. */
  lemma {:induction false} RedoNLast(ed: Editor, n: nat)
    requires RedoReady(ed) && n > 0
    ensures RedoN(ed, n) == RedoFixed(RedoN(ed, n - 1))
    decreases n
  {
    if n > 1 {
      RedoNLast(RedoFixed(ed), n - 1);
    }
  }

  /** One undo followed by one redo gives back the state, except that the
      history may have gained the document as its newest snapshot. */
  lemma UndoThenRedoFixed(ed: Editor)
    requires RedoReady(ed) && ed.history.index > 0
    ensures RedoFixed(UndoFixed(ed)) ==
              ed.(history := ed.history.(snapshots := UndoFixed(ed).history.snapshots))
    ensures ed.history.index < |ed.history.snapshots| ==> RedoFixed(UndoFixed(ed)) == ed
  {
  }

  /** n undos followed by n redos, with no edit in between, restore the
      document, the history index and the cursor. */
  lemma {:induction false} UndoRedoRoundTrip(ed: Editor, n: nat)
    requires RedoReady(ed) && n <= ed.history.index
    ensures var r := RedoN(UndoN(ed, n), n);
            && r.document == ed.document
            && r.history.index == ed.history.index
            && r.cursorX == ed.cursorX && r.cursorY == ed.cursorY
    ensures ed.history.index < |ed.history.snapshots| ==> RedoN(UndoN(ed, n), n) == ed
    decreases n
  {
    if n > 0 {
      var u := UndoFixed(ed);
      UndoRedoRoundTrip(u, n - 1);
      RedoNLast(UndoN(u, n - 1), n);
      assert RedoN(UndoN(ed, n), n) == RedoFixed(RedoN(UndoN(u, n - 1), n - 1));
      UndoThenRedoFixed(ed);
    }
  }

  /** On the same two keystrokes, the corrected pair undoes only the latest
      edit and redo brings it back. */
  lemma FixedUndoRedoKeepsLatestEdit()
    ensures InsertChar(INITIAL, 'a').Done?
    ensures InsertChar(InsertChar(INITIAL, 'a').value, 'b').Done?
    ensures var ed := InsertChar(InsertChar(INITIAL, 'a').value, 'b').value;
            && RedoReady(ed)
            && UndoFixed(ed).document == ["a"]
            && RedoFixed(UndoFixed(ed)).document == ed.document
  {
    UndoRedoLosesLatestEdit();
    var ed := InsertChar(InsertChar(INITIAL, 'a').value, 'b').value;
    assert ed.history == History([[""], ["a"]], 2);
  }
}

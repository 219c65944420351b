/** Properties of the edit/undo engine that relate several operations: the
    state invariant, local inverses, the undo/redo semantics as written, and
    the consequences of the one-sided column clamp. */
module EditorProperties {
  import opened Wrappers
  import opened Text
  import opened Editor

  lemma InitialState()
    ensures Valid(INITIAL) && RowInRange(INITIAL)
    ensures INITIAL.cursorX == 0 && INITIAL.cursorY == 0
    ensures INITIAL.history.snapshots == [] && INITIAL.history.index == 0
  {
  }

  /** The Ctrl+key bindings the editor dispatches on: ASCII control codes 1..26
      for both letter cases. */
  lemma CtrlLetters(c: char)
    requires IsLower(c)
    ensures Ctrl(c as int) == c as int - 'a' as int + 1
    ensures Ctrl(c as int - 32) == Ctrl(c as int)
    ensures 1 <= Ctrl(c as int) <= 26
  {
    var k := c as int - 'a' as int;
    assert c as int == 96 + k + 1 && 0 <= k < 26;
    assert (96 + k + 1) % 32 == k + 1;
    assert (64 + k + 1) % 32 == k + 1;
  }

  /** saveState keeps the history invariant: the new snapshot is non-empty
      whenever the document is. */
  lemma SaveStateKeepsValid(ed: Editor)
    requires Valid(ed)
    ensures Valid(ed.(history := SaveState(ed.history, ed.document)))
  {
    var h := ed.history;
    var kept := h.snapshots[..h.index];
    var pushed := kept + [ed.document];
    var r := SaveState(h, ed.document);
    assert forall i :: 0 <= i < |pushed| ==> |pushed[i]| > 0 by {
      forall i | 0 <= i < |pushed| ensures |pushed[i]| > 0 {
        if i < |kept| {
          assert pushed[i] == h.snapshots[i];
        }
      }
    }
    var drop := |pushed| - Min(|pushed|, HISTORY_CAPACITY);
    assert r.snapshots == pushed[drop..];
    forall i | 0 <= i < |r.snapshots|
      ensures |r.snapshots[i]| > 0
    {
      assert r.snapshots[i] == pushed[drop + i];
    }
  }

  /** Every modelled operation keeps the state invariant, so the document is
      never empty and the history never exceeds its capacity. */
  lemma OperationsKeepValid(ed: Editor, c: char, dx: int, dy: int)
    requires Valid(ed)
    ensures Valid(MoveCursor(ed, dx, dy))
    ensures Valid(Undo(ed)) && Valid(Redo(ed))
    ensures Valid(Home(ed))
    ensures RowInRange(ed) ==> Valid(End(ed))
    ensures InsertChar(ed, c).Done? ==> Valid(InsertChar(ed, c).value)
    ensures RowInRange(ed) && DeleteChar(ed).Done? ==> Valid(DeleteChar(ed).value)
    ensures RowInRange(ed) && InsertLine(ed).Done? ==> Valid(InsertLine(ed).value)
    ensures RowInRange(ed) ==> Valid(DeleteLine(ed))
    ensures RowInRange(ed) && DeleteForward(ed).Done? ==> Valid(DeleteForward(ed).value)
  {
    SaveStateKeepsValid(ed);
  }

  /** Operations that act on the cursor row keep it pointing at a line, except
      undo and redo, which may load a shorter document under the cursor. */
  lemma EditsKeepRowInRange(ed: Editor, c: char, dx: int, dy: int)
    requires Valid(ed) && RowInRange(ed)
    ensures RowInRange(MoveCursor(ed, dx, dy))
    ensures InsertChar(ed, c).Done? ==> RowInRange(InsertChar(ed, c).value)
    ensures DeleteChar(ed).Done? ==> RowInRange(DeleteChar(ed).value)
    ensures InsertLine(ed).Done? ==> RowInRange(InsertLine(ed).value)
    ensures RowInRange(DeleteLine(ed))
    ensures DeleteForward(ed).Done? ==> RowInRange(DeleteForward(ed).value)
  {
  }

  /** Undo keeps the cursor where it was, so it can leave the row beyond a
      shorter document: Enter twice from the initial state, then undo, loads
      [""] with the cursor on row 2.  A following Backspace, Enter, Delete or
      End then indexes a line that does not exist. */
  lemma UndoLeavesRowPastEnd()
    ensures InsertLine(INITIAL).Done?
    ensures var ed1 := InsertLine(INITIAL).value;
            && RowInRange(ed1) && InsertLine(ed1).Done?
            && var ed2 := Undo(InsertLine(ed1).value);
               && Valid(ed2)
               && ed2.document == [""] && ed2.cursorY == 2
               && !RowInRange(ed2)
  {
  }

  /** The corrected undo and redo keep the cursor row on a line of the loaded
      document in every valid state, and leave a row that is already on it
      alone; on the trace above the corrected undo puts the cursor on row 0. */
  lemma ClampedUndoKeepsRowInRange(ed: Editor)
    requires Valid(ed)
    ensures RowInRange(UndoClamped(ed)) && Valid(UndoClamped(ed))
    ensures RowInRange(RedoClamped(ed)) && Valid(RedoClamped(ed))
    ensures ed.cursorY < |UndoClamped(ed).document| ==> UndoClamped(ed).cursorY == ed.cursorY
    ensures ed.cursorY < |RedoClamped(ed).document| ==> RedoClamped(ed).cursorY == ed.cursorY
  {
  }

  /** On the trace of UndoLeavesRowPastEnd the corrected undo lands on row 0,
      column 0, where End and Backspace are defined again. */
  lemma ClampedUndoOnTrace()
    ensures InsertLine(INITIAL).Done?
    ensures var ed1 := InsertLine(INITIAL).value;
            && RowInRange(ed1) && InsertLine(ed1).Done?
            && var ed2 := UndoClamped(InsertLine(ed1).value);
               && ed2.document == [""] && ed2.cursorY == 0 && ed2.cursorX == 0
               && RowInRange(ed2) && End(ed2).cursorX == 0
  {
    UndoLeavesRowPastEnd();
  }

  /** insertChar followed by deleteChar restores the document and the cursor. */
  lemma InsertThenDeleteChar(ed: Editor, c: char)
    requires RowInRange(ed)
    requires 0 <= ed.cursorX <= |ed.document[ed.cursorY]|
    ensures InsertChar(ed, c).Done?
    ensures var ed1 := InsertChar(ed, c).value;
            && RowInRange(ed1)
            && DeleteChar(ed1).Done?
            && DeleteChar(ed1).value.document == ed.document
            && DeleteChar(ed1).value.cursorX == ed.cursorX
            && DeleteChar(ed1).value.cursorY == ed.cursorY
  {
    var ed1 := InsertChar(ed, c).value;
    var ed2 := DeleteChar(ed1).value;
    var y := ed.cursorY;
    assert ed2.document[y] == ed.document[y];
    assert |ed2.document| == |ed.document|;
    assert forall i :: 0 <= i < |ed.document| ==> ed2.document[i] == ed.document[i];
  }

  /** insertLine followed by deleteChar (backspace at column 0) joins the two
      halves again and puts the cursor back where it was. */
  lemma InsertLineThenDeleteChar(ed: Editor)
    requires RowInRange(ed)
    requires 0 <= ed.cursorX <= |ed.document[ed.cursorY]|
    ensures InsertLine(ed).Done?
    ensures var ed1 := InsertLine(ed).value;
            && RowInRange(ed1)
            && DeleteChar(ed1).Done?
            && DeleteChar(ed1).value.document == ed.document
            && DeleteChar(ed1).value.cursorX == ed.cursorX
            && DeleteChar(ed1).value.cursorY == ed.cursorY
  {
    var y := ed.cursorY;
    var ed1 := InsertLine(ed).value;
    var d2 := DeleteChar(ed1).value.document;
    assert d2[..y] == ed.document[..y];
    assert d2[y] == ed.document[y];
    assert d2[y + 1..] == ed.document[y + 1..];
    assert d2 == d2[..y] + [d2[y]] + d2[y + 1..];
    assert ed.document == ed.document[..y] + [ed.document[y]] + ed.document[y + 1..];
  }

  /** Backspace at the origin changes neither the document nor the cursor, yet
      still records a snapshot. */
  lemma DeleteCharAtOrigin(ed: Editor)
    requires Valid(ed) && ed.cursorX == 0 && ed.cursorY == 0
    ensures DeleteChar(ed).Done?
    ensures DeleteChar(ed).value.document == ed.document
    ensures DeleteChar(ed).value.cursorX == 0 && DeleteChar(ed).value.cursorY == 0
    ensures DeleteChar(ed).value.history.index == |DeleteChar(ed).value.history.snapshots|
    ensures DeleteChar(ed).value.history.snapshots[DeleteChar(ed).value.history.index - 1] == ed.document
  {
  }

  /** deleteLine never removes the only line. */
  lemma DeleteLineKeepsALine(ed: Editor)
    requires |ed.document| > 0
    requires |ed.document| > 1 ==> RowInRange(ed)
    ensures |DeleteLine(ed).document| == Max(1, |ed.document| - 1)
  {
  }

  /** Undo followed by redo restores the history index, but the document it
      leaves is the snapshot taken before the latest edit, not the document the
      undo started from. */
  lemma UndoThenRedo(ed: Editor)
    requires Valid(ed) && 1 < ed.history.index
    ensures var r := Redo(Undo(ed));
            && r.history == ed.history
            && r.document == ed.history.snapshots[ed.history.index - 1]
            && r.cursorX == ed.cursorX && r.cursorY == ed.cursorY
  {
  }

  /** Redo followed by undo goes back to the same index and loads the snapshot
      before it. */
  lemma RedoThenUndo(ed: Editor)
    requires Valid(ed) && 1 <= ed.history.index < |ed.history.snapshots|
    ensures var r := Undo(Redo(ed));
            && r.history == ed.history
            && r.document == ed.history.snapshots[ed.history.index - 1]
  {
  }

  /** Undo never reaches the first snapshot's successor state: with the index
      at 1 or below it does nothing, so the oldest edit cannot be undone. */
  lemma FirstEditCannotBeUndone(ed: Editor, c: char)
    requires ed == INITIAL
    ensures InsertChar(ed, c).Done?
    ensures var ed1 := InsertChar(ed, c).value;
            && ed1.document == [[c]]
            && Undo(ed1) == ed1
  {
    var ed1 := InsertChar(ed, c).value;
    var line := ed1.document[0];
    assert line[..0] + line[1..] == "";
    assert |line[1..]| == 0;
    assert line[0] == c;
    assert line == [c];
    assert |ed1.document| == 1;
    assert ed1.document == [line];
    assert ed1.history.index == 1;
  }

  /** Moving left from column 0 leaves the column at -1: the clamp is one-sided. */
  lemma MoveLeftGoesNegative(ed: Editor)
    requires RowInRange(ed) && ed.cursorX <= |ed.document[ed.cursorY]|
    ensures MoveCursor(ed, -1, 0).cursorX == ed.cursorX - 1
  {
  }

  /** Pressing Left at the origin and then typing makes std::string::insert
      throw, which ends the session. */
  lemma LeftAtOriginThenTypeExits(c: char)
    ensures MoveCursor(INITIAL, -1, 0).cursorX == -1
    ensures InsertChar(MoveCursor(INITIAL, -1, 0), c) == OutOfRange
  {
  }

  /** moveCursor with the column clamped on both sides, as a cursor column in
      [0, |line|] requires. */
  function MoveCursorClamped(ed: Editor, dx: int, dy: int): (r: Editor)
    requires RowInRange(ed)
    ensures RowInRange(r)
    ensures 0 <= r.cursorX <= |r.document[r.cursorY]|
    ensures r.document == ed.document && r.history == ed.history
    ensures 0 <= ed.cursorY + dy < |ed.document| && 0 <= ed.cursorX + dx <= |ed.document[ed.cursorY + dy]| ==>
              r.cursorX == ed.cursorX + dx && r.cursorY == ed.cursorY + dy
    ensures !(0 <= ed.cursorY + dy < |ed.document|) ==> r.cursorY == ed.cursorY
  {
    var newY := if 0 <= ed.cursorY + dy < |ed.document| then ed.cursorY + dy else ed.cursorY;
    var newX := if 0 <= ed.cursorY + dy < |ed.document| then ed.cursorX + dx else ed.cursorX;
    ed.(cursorY := newY, cursorX := Max(0, Min(newX, |ed.document[newY]|)))
  }

  /** With both-sided clamping, typing after any move succeeds. */
  lemma ClampedMoveThenTypeSucceeds(ed: Editor, dx: int, dy: int, c: char)
    requires RowInRange(ed)
    ensures InsertChar(MoveCursorClamped(ed, dx, dy), c).Done?
  {
  }

  /** Growing to a size twice is the same as growing once. */
  lemma ExpandDocumentIdempotent(doc: Document, n: nat)
    ensures ExpandDocument(ExpandDocument(doc, n), n) == ExpandDocument(doc, n)
  {
  }
}

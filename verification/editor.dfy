/** The edit/undo engine of MexEdit: a document of lines, a signed cursor and a
    bounded history of pre-edit snapshots.  Every operation is a pure state
    transition; operations that can raise std::out_of_range return an Outcome. */
module Editor {
  import opened Wrappers
  import opened Text

  type Document = seq<string>

  /** The history keeps at most this many snapshots. */
  const HISTORY_CAPACITY: nat := 100

  /** documentHistory and historyIndex (an unsigned size_t). */
  datatype History = History(snapshots: seq<Document>, index: nat)

  /** cursorX is the column and cursorY the row; both are signed ints. */
  datatype Editor = Editor(document: Document, cursorX: int, cursorY: int, history: History)

  /** The state right after construction: one empty line, the cursor at the
      origin and no history. */
  const INITIAL: Editor := Editor([""], 0, 0, History([], 0))

  /** What every reachable state satisfies: the document is never empty, the
      cursor row is never negative, the history index never runs past the end
      of the history, which stays within capacity and holds only non-empty
      documents. */
  ghost predicate Valid(ed: Editor)
  {
    && |ed.document| > 0
    && 0 <= ed.cursorY
    && ed.history.index <= |ed.history.snapshots| <= HISTORY_CAPACITY
    && forall i :: 0 <= i < |ed.history.snapshots| ==> |ed.history.snapshots[i]| > 0
  }

  /** The cursor row names an existing line. */
  predicate RowInRange(ed: Editor)
  {
    0 <= ed.cursorY < |ed.document|
  }

  /** CTRL(k): the low five bits of k.  For a two's-complement int, k & 0x1f is
      the Euclidean remainder of k by 32. */
  function Ctrl(k: int): (r: int)
    ensures 0 <= r < 32
    ensures (k - r) % 32 == 0
  {
    k % 32
  }

  /** Grows the document with empty lines up to newSize lines; never shrinks it. */
  function ExpandDocument(doc: Document, newSize: nat): (r: Document)
    ensures |r| == Max(|doc|, newSize)
    ensures r[..|doc|] == doc
    ensures forall i :: |doc| <= i < |r| ==> r[i] == ""
  {
    if newSize > |doc| then doc + seq(newSize - |doc|, _ => "") else doc
  }

  /** saveState: drop the snapshots from the current index on, append the
      current document, and evict the oldest snapshot once over capacity. */
  function SaveState(h: History, doc: Document): (r: History)
    ensures h.index <= |h.snapshots| && h.index <= HISTORY_CAPACITY ==>
              var pushed := h.snapshots[..h.index] + [doc];
              && r.snapshots == pushed[|pushed| - Min(|pushed|, HISTORY_CAPACITY)..]
              && (h.index < HISTORY_CAPACITY ==> r.index == h.index + 1)
    ensures h.index <= |h.snapshots| <= HISTORY_CAPACITY ==>
              && r.index == |r.snapshots| <= HISTORY_CAPACITY
              && r.snapshots[r.index - 1] == doc
  {
    var kept := if h.index < |h.snapshots| then h.snapshots[..h.index] else h.snapshots;
    var pushed := kept + [doc];
    if |pushed| > HISTORY_CAPACITY then History(pushed[1..], h.index + 1 - 1)
    else History(pushed, h.index + 1)
  }

  /** undo: when more than one snapshot precedes the index, step the index back
      and load the snapshot just before the new index.  The cursor is kept. */
  function Undo(ed: Editor): (r: Editor)
    requires ed.history.index <= |ed.history.snapshots|
    ensures ed.history.index <= 1 ==> r == ed
    ensures ed.history.index > 1 ==>
              && r.history == History(ed.history.snapshots, ed.history.index - 1)
              && r.document == ed.history.snapshots[r.history.index - 1]
    ensures r.cursorX == ed.cursorX && r.cursorY == ed.cursorY
  {
    if ed.history.index > 1 then
      var idx := ed.history.index - 1;
      ed.(document := ed.history.snapshots[idx - 1], history := ed.history.(index := idx))
    else ed
  }

  /** redo: when a snapshot lies at or after the index, step the index forward
      and load the snapshot just before the new index.  The cursor is kept. */
  function Redo(ed: Editor): (r: Editor)
    ensures ed.history.index >= |ed.history.snapshots| ==> r == ed
    ensures ed.history.index < |ed.history.snapshots| ==>
              && r.history == History(ed.history.snapshots, ed.history.index + 1)
              && r.document == ed.history.snapshots[ed.history.index]
    ensures r.cursorX == ed.cursorX && r.cursorY == ed.cursorY
  {
    if ed.history.index < |ed.history.snapshots| then
      var idx := ed.history.index + 1;
      ed.(document := ed.history.snapshots[idx - 1], history := ed.history.(index := idx))
    else ed
  }

  /** Puts the cursor back on the document: the row is clamped to the last
      line and the column, from above only, to that line's length, as
      deleteLine does. */
  function ClampCursor(ed: Editor): (r: Editor)
    ensures r.document == ed.document && r.history == ed.history
    ensures |ed.document| > 0 && 0 <= ed.cursorY ==> RowInRange(r) && r.cursorX <= |r.document[r.cursorY]|
    ensures RowInRange(ed) && ed.cursorX <= |ed.document[ed.cursorY]| ==> r == ed
    ensures |ed.document| > 0 && ed.cursorY >= |ed.document| ==> r.cursorY == |ed.document| - 1
  {
    if |ed.document| == 0 || ed.cursorY < 0 then ed
    else
      var y := Min(ed.cursorY, |ed.document| - 1);
      ed.(cursorY := y, cursorX := Min(ed.cursorX, |ed.document[y]|))
  }

  /** undo followed by putting the cursor back on the loaded document. */
  function UndoClamped(ed: Editor): (r: Editor)
    requires ed.history.index <= |ed.history.snapshots|
    ensures r.document == Undo(ed).document && r.history == Undo(ed).history
    ensures |Undo(ed).document| > 0 && 0 <= ed.cursorY ==> RowInRange(r)
    ensures ed.cursorY < |r.document| ==> r.cursorY == ed.cursorY
  {
    ClampCursor(Undo(ed))
  }

  /** redo followed by putting the cursor back on the loaded document. */
  function RedoClamped(ed: Editor): (r: Editor)
    ensures r.document == Redo(ed).document && r.history == Redo(ed).history
    ensures |Redo(ed).document| > 0 && 0 <= ed.cursorY ==> RowInRange(r)
    ensures ed.cursorY < |r.document| ==> r.cursorY == ed.cursorY
  {
    ClampCursor(Redo(ed))
  }

  /** The clamping part of moveCursor: a target row outside the document is
      ignored together with the column move; otherwise the column is clamped
      from above only, so it may become negative. */
  function MoveCursor(ed: Editor, dx: int, dy: int): (r: Editor)
    ensures r.document == ed.document && r.history == ed.history
    ensures !(0 <= ed.cursorY + dy < |ed.document|) ==> r == ed
    ensures 0 <= ed.cursorY + dy < |ed.document| ==>
              && r.cursorY == ed.cursorY + dy
              && r.cursorX <= |ed.document[r.cursorY]|
              && r.cursorX <= ed.cursorX + dx
              && (r.cursorX == ed.cursorX + dx || r.cursorX == |ed.document[r.cursorY]|)
  {
    var newX := ed.cursorX + dx;
    var newY := ed.cursorY + dy;
    if 0 <= newY < |ed.document| then
      ed.(cursorY := newY, cursorX := Min(newX, |ed.document[newY]|))
    else ed
  }

  /** insertChar: snapshot, grow the document down to the cursor row, then
      insert at the cursor column; a column outside [0, |line|] makes
      std::string::insert throw. */
  function InsertChar(ed: Editor, c: char): (r: Outcome<Editor>)
    requires 0 <= ed.cursorY
    ensures ed.cursorY < |ed.document| ==> (r.Done? <==> 0 <= ed.cursorX <= |ed.document[ed.cursorY]|)
    ensures ed.cursorY >= |ed.document| ==> (r.Done? <==> ed.cursorX == 0)
    ensures r.Done? ==>
              var y, x, d := ed.cursorY, ed.cursorX, r.value.document;
              && |d| == Max(|ed.document|, y + 1)
              && r.value.cursorY == y && r.value.cursorX == x + 1
              && 0 <= x < |d[y]| && d[y][x] == c
              && d[y][..x] + d[y][x + 1..] == (if y < |ed.document| then ed.document[y] else "")
              && (forall i :: 0 <= i < |ed.document| && i != y ==> d[i] == ed.document[i])
              && (forall i :: |ed.document| <= i < |d| && i != y ==> d[i] == "")
              && r.value.history == SaveState(ed.history, ed.document)
  {
    var h := SaveState(ed.history, ed.document);
    var doc := if ed.cursorY >= |ed.document| then ExpandDocument(ed.document, ed.cursorY + 1) else ed.document;
    var line := doc[ed.cursorY];
    if 0 <= ed.cursorX <= |line| then
      var line' := line[..ed.cursorX] + [c] + line[ed.cursorX..];
      assert line'[..ed.cursorX] + line'[ed.cursorX + 1..] == line;
      Done(Editor(doc[ed.cursorY := line'], ed.cursorX + 1, ed.cursorY, h))
    else OutOfRange
  }

  /** deleteChar (backspace): snapshot, then remove the character left of the
      cursor, or join the line onto the previous one at column 0, or do nothing
      at row 0.  erase(cursorX - 1, 1) throws when cursorX - 1 > |line| and
      removes nothing when cursorX - 1 == |line|. */
  function DeleteChar(ed: Editor): (r: Outcome<Editor>)
    requires RowInRange(ed)
    ensures r.OutOfRange? <==> ed.cursorX > |ed.document[ed.cursorY]| + 1
    ensures r.Done? ==> r.value.history == SaveState(ed.history, ed.document)
    ensures r.Done? && 0 < ed.cursorX ==>
              var y, x, line := ed.cursorY, ed.cursorX, ed.document[ed.cursorY];
              && r.value.cursorY == y && r.value.cursorX == x - 1
              && |r.value.document| == |ed.document|
              && (forall i :: 0 <= i < |ed.document| && i != y ==> r.value.document[i] == ed.document[i])
              && (x <= |line| ==> r.value.document[y] == line[..x - 1] + line[x..])
              && (x == |line| + 1 ==> r.value.document[y] == line)
    ensures ed.cursorX <= 0 && ed.cursorY > 0 ==>
              var y, d := ed.cursorY, r.value.document;
              && |d| == |ed.document| - 1
              && r.value.cursorY == y - 1 && r.value.cursorX == |ed.document[y - 1]|
              && d[y - 1] == ed.document[y - 1] + ed.document[y]
              && d[..y - 1] == ed.document[..y - 1]
              && d[y..] == ed.document[y + 1..]
    ensures ed.cursorX <= 0 && ed.cursorY == 0 ==>
              r == Done(ed.(history := SaveState(ed.history, ed.document)))
  {
    var h := SaveState(ed.history, ed.document);
    var y, x, doc := ed.cursorY, ed.cursorX, ed.document;
    var line := doc[y];
    if x > 0 then
      if x - 1 > |line| then OutOfRange
      else Done(Editor(doc[y := line[..x - 1] + line[Min(x, |line|)..]], x - 1, y, h))
    else if y > 0 then
      Done(Editor(doc[..y - 1] + [doc[y - 1] + line] + doc[y + 1..], |doc[y - 1]|, y - 1, h))
    else Done(ed.(history := h))
  }

  /** insertLine (Enter): snapshot, split the cursor line at the cursor column
      and move to column 0 of the new line; substr throws for a column outside
      [0, |line|]. */
  function InsertLine(ed: Editor): (r: Outcome<Editor>)
    requires RowInRange(ed)
    ensures r.Done? <==> 0 <= ed.cursorX <= |ed.document[ed.cursorY]|
    ensures r.Done? ==>
              var y, d := ed.cursorY, r.value.document;
              && |d| == |ed.document| + 1
              && d[y] + d[y + 1] == ed.document[y]
              && |d[y]| == ed.cursorX
              && d[..y] == ed.document[..y]
              && d[y + 2..] == ed.document[y + 1..]
              && r.value.cursorY == y + 1 && r.value.cursorX == 0
              && r.value.history == SaveState(ed.history, ed.document)
  {
    var h := SaveState(ed.history, ed.document);
    var y, x, doc := ed.cursorY, ed.cursorX, ed.document;
    var line := doc[y];
    if 0 <= x <= |line| then
      assert line[..x] + line[x..] == line;
      Done(Editor(doc[..y] + [line[..x], line[x..]] + doc[y + 1..], 0, y + 1, h))
    else OutOfRange
  }

  /** deleteLine: snapshot, then remove the cursor line unless it is the only
      one; the row is clamped to the last line and the column, from above
      only, to the new line's length. */
  function DeleteLine(ed: Editor): (r: Editor)
    requires |ed.document| > 1 ==> RowInRange(ed)
    ensures r.history == SaveState(ed.history, ed.document)
    ensures |ed.document| <= 1 ==> r == ed.(history := r.history)
    ensures |ed.document| > 1 ==>
              var y := ed.cursorY;
              && |r.document| == |ed.document| - 1
              && r.document == ed.document[..y] + ed.document[y + 1..]
              && r.cursorY == Min(y, |r.document| - 1)
              && r.cursorX == Min(ed.cursorX, |r.document[r.cursorY]|)
  {
    var h := SaveState(ed.history, ed.document);
    var y, doc := ed.cursorY, ed.document;
    if |doc| > 1 then
      var doc' := doc[..y] + doc[y + 1..];
      var y' := if y >= |doc'| then |doc'| - 1 else y;
      Editor(doc', Min(ed.cursorX, |doc'[y']|), y', h)
    else ed.(history := h)
  }

  /** The Delete key: remove the character under the cursor, or pull the next
      line up at the end of a line.  No snapshot is taken.  erase throws for a
      negative column. */
  function DeleteForward(ed: Editor): (r: Outcome<Editor>)
    requires RowInRange(ed)
    ensures r.OutOfRange? <==> ed.cursorX < 0
    ensures r.Done? ==>
              && r.value.cursorX == ed.cursorX && r.value.cursorY == ed.cursorY
              && r.value.history == ed.history
    ensures r.Done? && ed.cursorX < |ed.document[ed.cursorY]| ==>
              var y, x, line := ed.cursorY, ed.cursorX, ed.document[ed.cursorY];
              && |r.value.document| == |ed.document|
              && r.value.document[y] == line[..x] + line[x + 1..]
              && (forall i :: 0 <= i < |ed.document| && i != y ==> r.value.document[i] == ed.document[i])
    ensures ed.cursorX >= |ed.document[ed.cursorY]| && ed.cursorY < |ed.document| - 1 ==>
              var y, d := ed.cursorY, r.value.document;
              && |d| == |ed.document| - 1
              && d[y] == ed.document[y] + ed.document[y + 1]
              && d[..y] == ed.document[..y]
              && d[y + 1..] == ed.document[y + 2..]
    ensures ed.cursorX >= |ed.document[ed.cursorY]| && ed.cursorY == |ed.document| - 1 ==> r == Done(ed)
  {
    var y, x, doc := ed.cursorY, ed.cursorX, ed.document;
    var line := doc[y];
    if x < |line| then
      if x < 0 then OutOfRange
      else Done(ed.(document := doc[y := line[..x] + line[x + 1..]]))
    else if y < |doc| - 1 then
      Done(ed.(document := doc[..y] + [line + doc[y + 1]] + doc[y + 2..]))
    else Done(ed)
  }

  /** The Home key: column 0. */
  function Home(ed: Editor): (r: Editor)
    ensures r.cursorX == 0
    ensures r.document == ed.document && r.cursorY == ed.cursorY && r.history == ed.history
  {
    ed.(cursorX := 0)
  }

  /** The End key: the column just past the last character of the line. */
  function End(ed: Editor): (r: Editor)
    requires RowInRange(ed)
    ensures r.cursorX == |ed.document[ed.cursorY]|
    ensures r.document == ed.document && r.cursorY == ed.cursorY && r.history == ed.history
  {
    ed.(cursorX := |ed.document[ed.cursorY]|)
  }
}

/** The editor's in-memory document: a bounded sequence of bounded lines, the
    cursor the terminal keeps for it, and the Normal/Command mode flag. */
module Buffer {

  /** Row capacity of the buffer. */
  const MAX_ROWS: nat := 51

  /** Storage of one line, terminator included: a line holds MAX_COLS - 1 bytes,
      each a `char` here. */
  const MAX_COLS: nat := 100

  /** A line fits its storage and holds no newline (a newline ends a line). */
  predicate LineFits(line: string) {
    |line| <= MAX_COLS - 1 && '\n' !in line
  }

  /** Every line fits and the row capacity is respected. */
  predicate LinesFit(lines: seq<string>) {
    |lines| <= MAX_ROWS && forall i :: 0 <= i < |lines| ==> LineFits(lines[i])
  }

  datatype Mode = Normal | Command

  /** The whole editor state. The source reads the cursor back from the terminal;
      here it is explicit. */
  datatype Editor = Editor(lines: seq<string>, row: nat, col: nat, mode: Mode)

  /** The cursor sits on an existing line, at most just past its last character.
      An empty buffer (what an empty or missing file loads as) keeps it at the origin. */
  predicate CursorOk(lines: seq<string>, row: nat, col: nat) {
    if |lines| == 0 then row == 0 && col == 0
    else row < |lines| && col <= |lines[row]|
  }

  predicate Valid(e: Editor) {
    LinesFit(e.lines) && CursorOk(e.lines, e.row, e.col)
  }

  /** The editor with its first line made real: an edit on an empty buffer acts
      on one empty line under the cursor at the origin. */
  function Materialised(e: Editor): (r: Editor)
    ensures |r.lines| > 0 && r.row == e.row && r.col == e.col && r.mode == e.mode
    ensures |e.lines| > 0 ==> r == e
    ensures |e.lines| == 0 ==> r.lines == [[]]
    ensures Valid(e) ==> Valid(r)
  {
    if |e.lines| == 0 then e.(lines := [[]]) else e
  }
}

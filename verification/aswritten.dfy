/** The source's keystroke and load behaviour as written, where it differs from
    the guarded engine: the insert guard that does not look at the line's
    length, the unsigned `num_lines - 1` that wraps on an empty buffer, and the
    load loop that reads before it tests the row capacity. Each definition is
    compared with the guarded one, and a concrete input shows the difference.

    An empty buffer only arises from a load that read nothing, and the buffer is
    a zero-initialised global, so right after that load every storage row beyond
    the line count holds an empty line. The definitions below start from that
    state; rows that earlier edits left behind are not modelled. */
module AsWritten {
  import opened Buffer
  import opened Keys
  import opened FileText
  import opened Editing

  /** Width of the source's `size_t`. */
  const SIZE_MODULUS: int := 0x1_0000_0000_0000_0000

  /** `num_lines - 1` computed as a `size_t`. */
  function LastRowIndex(count: nat): (n: nat)
    requires count < SIZE_MODULUS
    ensures count > 0 ==> n == count - 1
    ensures count == 0 ==> n == SIZE_MODULUS - 1
  {
    (count - 1) % SIZE_MODULUS
  }

  /** `n` copies of `c`. */
  function Repeat(c: char, n: nat): (s: string)
    ensures |s| == n && forall i :: 0 <= i < n ==> s[i] == c
  {
    if n == 0 then [] else [c] + Repeat(c, n - 1)
  }

  // ----- typing -----

  /** Typing as written: the guard tests only the column and the row against
      their capacities. On an empty buffer the character goes into a storage
      row that the line count does not include. */
  function InsertAsWritten(e: Editor, ch: TextChar): (r: Editor)
    requires Valid(e)
    ensures e.col < MAX_COLS - 1 ==> r.col == e.col + 1 && |r.lines| == |e.lines|
    ensures e.col >= MAX_COLS - 1 ==> r == e
  {
    if e.col < MAX_COLS - 1 && e.row < MAX_ROWS then
      if e.row < |e.lines| then
        var l := e.lines[e.row];
        e.(lines := e.lines[e.row := l[..e.col] + [ch] + l[e.col..]], col := e.col + 1)
      else e.(col := e.col + 1)
    else e
  }

  /** The two agree exactly when the buffer has a line and that line is not full. */
  lemma {:induction false} InsertAsWrittenDiffers(e: Editor, ch: TextChar)
    requires Valid(e)
    ensures InsertAsWritten(e, ch) != InsertChar(e, ch) <==>
            e.col < MAX_COLS - 1 && (|e.lines| == 0 || |e.lines[e.row]| == MAX_COLS - 1)
  {
    if |e.lines| > 0 && e.col < MAX_COLS - 1 && |e.lines[e.row]| == MAX_COLS - 1 {
      assert |InsertAsWritten(e, ch).lines[e.row]| == MAX_COLS;
    }
  }

  /** Typing at the start of a full 99-character line makes it 100 characters
      long, one more than its storage holds. */
  lemma {:induction false} InsertOverflowExample()
    ensures var e := Editor([Repeat('a', MAX_COLS - 1)], 0, 0, Normal);
            Valid(e) && |InsertAsWritten(e, 'b').lines[0]| == MAX_COLS &&
            !Valid(InsertAsWritten(e, 'b')) && InsertChar(e, 'b') == e
  {
    var e := Editor([Repeat('a', MAX_COLS - 1)], 0, 0, Normal);
    assert '\n' !in e.lines[0];
    assert LinesFit(e.lines);
    var r := InsertAsWritten(e, 'b');
    assert |r.lines[0]| == MAX_COLS;
    assert !LineFits(r.lines[0]);
  }

  /** Typing into an empty buffer moves the cursor past a character that no line
      holds: a save afterwards writes nothing, where the corrected engine makes
      the character the buffer's first line. */
  lemma {:induction false} InsertIntoEmptyExample()
    ensures var e := Editor([], 0, 0, Normal);
            InsertAsWritten(e, 'b') == Editor([], 0, 1, Normal) &&
            !Valid(InsertAsWritten(e, 'b')) && Serialise(InsertAsWritten(e, 'b').lines) == [] &&
            InsertChar(e, 'b') == Editor(["b"], 0, 1, Normal)
  {
  }

  // ----- arrow down, arrow right, Enter -----

  /** Arrow down as written: the last-row test compares against `num_lines - 1`
      as a `size_t`. */
  function DownAsWritten(e: Editor): (r: Editor)
    requires Valid(e)
    ensures r.mode == e.mode && (r.lines == e.lines || r.lines == e.lines + [[]])
  {
    if e.row < LastRowIndex(|e.lines|) then
      // past the line count the storage row is an empty line
      var len := if e.row + 1 < |e.lines| then |e.lines[e.row + 1]| else 0;
      e.(row := e.row + 1, col := Clamp(e.col, len))
    else if |e.lines| < MAX_ROWS then
      e.(lines := e.lines + [[]], row := e.row + 1, col := 0)
    else e
  }

  /** The two agree exactly when the buffer is not empty. */
  lemma {:induction false} DownAsWrittenDiffers(e: Editor)
    requires Valid(e)
    ensures DownAsWritten(e) != MoveDown(e) <==> |e.lines| == 0
  {
  }

  /** Arrow down on an empty buffer puts the cursor on row 1 of a buffer with no
      lines. */
  lemma {:induction false} DownFromEmptyExample()
    ensures DownAsWritten(Editor([], 0, 0, Normal)) == Editor([], 1, 0, Normal)
    ensures !Valid(DownAsWritten(Editor([], 0, 0, Normal)))
  {
  }

  /** Arrow right as written, with the same `size_t` last-row test. */
  function RightAsWritten(e: Editor): (r: Editor)
    requires Valid(e)
    ensures r.lines == e.lines && r.mode == e.mode
  {
    // past the line count the storage row is an empty line
    var len := if e.row < |e.lines| then |e.lines[e.row]| else 0;
    if e.col < len then e.(col := e.col + 1)
    else if e.row < LastRowIndex(|e.lines|) then e.(row := e.row + 1, col := 0)
    else e
  }

  /** The two agree exactly when the buffer is not empty. */
  lemma {:induction false} RightAsWrittenDiffers(e: Editor)
    requires Valid(e)
    ensures RightAsWritten(e) != MoveRight(e) <==> |e.lines| == 0
  {
  }

  /** Arrow right on an empty buffer puts the cursor on row 1 of a buffer with no
      lines. */
  lemma {:induction false} RightFromEmptyExample()
    ensures RightAsWritten(Editor([], 0, 0, Normal)) == Editor([], 1, 0, Normal)
    ensures !Valid(RightAsWritten(Editor([], 0, 0, Normal)))
  {
  }

  /** Enter as written: the only guard is the row capacity. On an empty buffer
      the count becomes 1 (the zeroed storage row 0, an empty line) and the
      cursor moves to row 1. */
  function SplitAsWritten(e: Editor): (r: Editor)
    requires Valid(e)
    ensures |e.lines| >= MAX_ROWS ==> r == e
  {
    if |e.lines| < MAX_ROWS then
      if |e.lines| == 0 then e.(lines := [[]], row := 1, col := 0)
      else SplitLine(e)
    else e
  }

  /** The two agree exactly when the buffer is not empty. */
  lemma {:induction false} SplitAsWrittenDiffers(e: Editor)
    requires Valid(e)
    ensures SplitAsWritten(e) != SplitLine(e) <==> |e.lines| == 0
  {
  }

  /** Enter on an empty buffer leaves the cursor on row 1 of a one-line buffer,
      where the corrected engine makes two empty lines. */
  lemma {:induction false} SplitOnEmptyExample()
    ensures SplitAsWritten(Editor([], 0, 0, Normal)) == Editor([[]], 1, 0, Normal)
    ensures !Valid(SplitAsWritten(Editor([], 0, 0, Normal)))
    ensures SplitLine(Editor([], 0, 0, Normal)) == Editor(["", ""], 1, 0, Normal)
  {
  }

  // ----- save -----

  /** The message a successful save prints at row MAX_ROWS + 1, column 0. */
  const SAVED_MESSAGE: string := "File saved successfully."

  /** The cursor after a save as written, in a window of `windowRows` rows (and
      enough columns). Printing the message moves the terminal cursor to its end
      when row MAX_ROWS + 1 exists, and the next keystroke reads that position
      back as the editing position. In a shorter window the print fails and the
      cursor stays. */
  function SaveCursorAsWritten(e: Editor, windowRows: nat): (r: Editor)
    requires Valid(e)
    ensures r.lines == e.lines && r.mode == e.mode
    ensures windowRows > MAX_ROWS + 1 ==> r.row == MAX_ROWS + 1 && r.col == |SAVED_MESSAGE|
    ensures windowRows <= MAX_ROWS + 1 ==> r == e
  {
    if windowRows > MAX_ROWS + 1 then e.(row := MAX_ROWS + 1, col := |SAVED_MESSAGE|)
    else e
  }

  /** The rows of the line array that the source's Backspace indexes exist: it
      reads row `row` whenever it does anything (and row `row - 1` when it joins). */
  predicate BackspaceInStorage(e: Editor) {
    (e.col > 0 || e.row > 0) ==> e.row < MAX_ROWS
  }

  /** The save as written leaves the cursor somewhere else than the guarded save
      exactly when the window has the message's row. */
  lemma {:induction false} SaveAsWrittenDiffers(e: Editor, windowRows: nat)
    requires Valid(e) && e.mode == Normal
    ensures SaveCursorAsWritten(e, windowRows) != Step(e, Save).next <==> windowRows > MAX_ROWS + 1
  {
  }

  /** With the guarded save every later Backspace stays inside the line array. */
  lemma {:induction false} SaveKeepsBackspaceInStorage(e: Editor)
    requires Valid(e) && e.mode == Normal
    ensures BackspaceInStorage(Step(e, Save).next)
  {
  }

  /** Saving ["abc"] in a 53-row window puts the cursor at (52, 24), off the
      buffer, and a Backspace there would shift characters inside row 52 of a
      51-row array. The guarded save leaves the cursor at (0, 3). */
  lemma {:induction false} SaveThenBackspaceExample()
    ensures var e := Editor(["abc"], 0, 3, Normal);
            var s := SaveCursorAsWritten(e, MAX_ROWS + 2);
            Valid(e) && s == Editor(["abc"], MAX_ROWS + 1, 24, Normal) &&
            !Valid(s) && !BackspaceInStorage(s) &&
            Step(e, Save).next == e && BackspaceInStorage(Step(e, Save).next)
  {
  }

  // ----- load -----

  /** How many storage rows the load loop as written fills, starting at row
      `count`: each turn reads a chunk into row `count` first and only then tests
      `count < MAX_ROWS`, so with more text left at capacity it fills row
      MAX_ROWS, which does not exist. */
  function ReadsAsWritten(text: string, count: nat): (n: nat)
    requires count <= MAX_ROWS
    ensures n <= |text|
    ensures count + n <= MAX_ROWS + 1
    decreases |text|
  {
    if |text| == 0 then 0
    else if count == MAX_ROWS then 1
    else 1 + ReadsAsWritten(text[ChunkLen(text)..], count + 1)
  }

  /** The loop as written reads one chunk more than the guarded load keeps, and
      only when the guarded load stopped at capacity with text left over. */
  lemma {:induction false} ReadsAsWrittenVersusLoad(text: string, count: nat)
    requires count <= MAX_ROWS
    ensures ReadsAsWritten(text, count) == |LoadFrom(text, count)| ||
            (ReadsAsWritten(text, count) == |LoadFrom(text, count)| + 1 &&
             count + |LoadFrom(text, count)| == MAX_ROWS)
    decreases |text|
  {
    if |text| > 0 && count < MAX_ROWS {
      var k := ChunkLen(text);
      ReadsAsWrittenVersusLoad(text[k..], count + 1);
      assert LoadFrom(text, count) ==
             [StripNewline(text[..k])] + LoadFrom(text[k..], count + 1);
    }
  }

  /** A text of n empty lines, read from row `count`, fills n rows, one of them
      past the capacity if need be. */
  lemma {:induction false} ReadsOfNewlines(n: nat, count: nat)
    requires count <= MAX_ROWS
    ensures ReadsAsWritten(Repeat('\n', n), count) ==
            if n <= MAX_ROWS + 1 - count then n else MAX_ROWS + 1 - count
    decreases n
  {
    if n > 0 && count < MAX_ROWS {
      var text := Repeat('\n', n);
      ChunkOfLine(text, 0);
      assert text[1..] == Repeat('\n', n - 1);
      ReadsOfNewlines(n - 1, count + 1);
    }
  }

  /** A file of 52 empty lines makes the loop as written fill storage row 51 of
      a 51-row buffer; the guarded load keeps 51 lines. */
  lemma {:induction false} OverfullLoadExample()
    ensures ReadsAsWritten(Repeat('\n', MAX_ROWS + 1), 0) == MAX_ROWS + 1
    ensures |Parse(Repeat('\n', MAX_ROWS + 1))| <= MAX_ROWS
  {
    ReadsOfNewlines(MAX_ROWS + 1, 0);
  }
}

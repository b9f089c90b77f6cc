/** The keystroke engine: each edit and cursor move as a pure function of the
    editor state, and the dispatch of one keystroke in Normal mode. */
module Editing {
  import opened Buffer
  import opened Keys
  import opened FileText

  /** The insert guard: the source's own checks (column and row below capacity),
      plus the one it lacks, that the current line has room for one more
      character. An empty buffer counts as one empty line. */
  predicate CanInsert(e: Editor) {
    && e.col < MAX_COLS - 1 && e.row < MAX_ROWS
    && (|e.lines| == 0 || (e.row < |e.lines| && |e.lines[e.row]| < MAX_COLS - 1))
  }

  /** A typed character goes in at the cursor, which moves past it. Typing into
      an empty buffer makes its first line. */
  function InsertChar(e: Editor, ch: TextChar): (r: Editor)
    requires Valid(e)
    ensures Valid(r) && r.mode == e.mode
    ensures !CanInsert(e) ==> r == e
    ensures |e.lines| == 0 ==> r.lines == [[ch]] && r.row == 0 && r.col == 1
    ensures CanInsert(e) ==>
      var m := Materialised(e).lines;
      && |r.lines| == |m| && r.row == e.row && r.col == e.col + 1
      && |r.lines[e.row]| == |m[e.row]| + 1
      && r.lines[e.row][e.col] == ch
      && r.lines[e.row][..e.col] == m[e.row][..e.col]
      && r.lines[e.row][e.col + 1..] == m[e.row][e.col..]
      && forall i :: 0 <= i < |m| && i != e.row ==> r.lines[i] == m[i]
  {
    if CanInsert(e) then
      var m := Materialised(e);
      var line := m.lines[m.row];
      var line' := line[..m.col] + [ch] + line[m.col..];
      assert forall i :: 0 <= i < |line'| ==> line'[i] != '\n' by {
        forall i | 0 <= i < |line'| ensures line'[i] != '\n' {
          if i > m.col { assert line'[i] == line[i - 1]; }
        }
      }
      assert |e.lines| == 0 ==> line' == [ch];
      m.(lines := m.lines[m.row := line'], col := m.col + 1)
    else e
  }

  /** The cursor's line appended to the previous one fits in a line's storage. */
  predicate JoinFits(lines: seq<string>, row: nat)
    requires 0 < row < |lines|
  {
    |lines[row - 1]| + |lines[row]| < MAX_COLS
  }

  /** Backspace: delete the character before the cursor, or at the start of a line
      join it onto the previous line when the two fit together. */
  function DeleteBefore(e: Editor): (r: Editor)
    requires Valid(e)
    ensures Valid(r) && r.mode == e.mode
    ensures r == e <==> e.col == 0 && (e.row == 0 || !JoinFits(e.lines, e.row))
    ensures e.col > 0 ==>
      && |r.lines| == |e.lines| && r.row == e.row && r.col == e.col - 1
      && r.lines[e.row] == e.lines[e.row][..e.col - 1] + e.lines[e.row][e.col..]
      && forall i :: 0 <= i < |e.lines| && i != e.row ==> r.lines[i] == e.lines[i]
    ensures e.col == 0 && e.row > 0 && JoinFits(e.lines, e.row) ==>
      && |r.lines| == |e.lines| - 1
      && r.row == e.row - 1 && r.col == |e.lines[e.row - 1]|
      && r.lines[e.row - 1] == e.lines[e.row - 1] + e.lines[e.row]
      && (forall i :: 0 <= i < e.row - 1 ==> r.lines[i] == e.lines[i])
      && (forall i :: e.row <= i < |r.lines| ==> r.lines[i] == e.lines[i + 1])
  {
    if e.col > 0 then
      var line := e.lines[e.row];
      var line' := line[..e.col - 1] + line[e.col..];
      assert forall i :: 0 <= i < |line'| ==> line'[i] != '\n' by {
        forall i | 0 <= i < |line'| ensures line'[i] != '\n' {
          if i >= e.col - 1 { assert line'[i] == line[i + 1]; }
        }
      }
      e.(lines := e.lines[e.row := line'], col := e.col - 1)
    else if e.row > 0 && JoinFits(e.lines, e.row) then
      var prev := e.lines[e.row - 1];
      var joined := prev + e.lines[e.row];
      assert forall i :: 0 <= i < |joined| ==> joined[i] != '\n' by {
        forall i | 0 <= i < |joined| ensures joined[i] != '\n' {
          if i >= |prev| { assert joined[i] == e.lines[e.row][i - |prev|]; }
        }
      }
      var lines' := e.lines[..e.row - 1] + [joined] + e.lines[e.row + 1..];
      assert forall i :: 0 <= i < |lines'| ==> LineFits(lines'[i]) by {
        forall i | 0 <= i < |lines'| ensures LineFits(lines'[i]) {
          if i >= e.row { assert lines'[i] == e.lines[i + 1]; }
        }
      }
      e.(lines := lines', row := e.row - 1, col := |prev|)
    else e
  }

  /** Enter splits the cursor's line, which needs a free row. An empty buffer
      counts as one empty line, so Enter there makes two. */
  predicate CanSplit(e: Editor) {
    |e.lines| < MAX_ROWS
  }

  /** Enter: the text after the cursor moves to a new line below, and the cursor
      goes to the start of that line. */
  function SplitLine(e: Editor): (r: Editor)
    requires Valid(e)
    ensures Valid(r) && r.mode == e.mode
    ensures !CanSplit(e) ==> r == e
    ensures |e.lines| == 0 ==> r.lines == [[], []] && r.row == 1 && r.col == 0
    ensures CanSplit(e) ==>
      var m := Materialised(e).lines;
      && |r.lines| == |m| + 1 && r.row == e.row + 1 && r.col == 0
      && r.lines[e.row] == m[e.row][..e.col]
      && r.lines[e.row + 1] == m[e.row][e.col..]
      && (forall i :: 0 <= i < e.row ==> r.lines[i] == m[i])
      && (forall i :: e.row < i < |m| ==> r.lines[i + 1] == m[i])
  {
    if CanSplit(e) then
      var m := Materialised(e);
      var line := m.lines[m.row];
      var head, tail := line[..m.col], line[m.col..];
      assert forall i :: 0 <= i < |head| ==> head[i] != '\n' by {
        forall i | 0 <= i < |head| ensures head[i] != '\n' { assert head[i] == line[i]; }
      }
      assert forall i :: 0 <= i < |tail| ==> tail[i] != '\n' by {
        forall i | 0 <= i < |tail| ensures tail[i] != '\n' { assert tail[i] == line[m.col + i]; }
      }
      var lines' := m.lines[..m.row] + [head, tail] + m.lines[m.row + 1..];
      assert forall i :: 0 <= i < |lines'| ==> LineFits(lines'[i]) by {
        forall i | 0 <= i < |lines'| ensures LineFits(lines'[i]) {
          if i > m.row + 1 { assert lines'[i] == m.lines[i - 1]; }
        }
      }
      m.(lines := lines', row := m.row + 1, col := 0)
    else e
  }

  /** The column a vertical move lands on: the old column, pulled back to the end
      of the target line when that line is shorter. */
  function Clamp(col: nat, len: nat): (c: nat)
    ensures c <= len && c <= col
    ensures c == col || c == len
  {
    if col > len then len else col
  }

  function MoveUp(e: Editor): (r: Editor)
    requires Valid(e)
    ensures Valid(r) && r.lines == e.lines && r.mode == e.mode
    ensures e.row == 0 ==> r == e
    ensures e.row > 0 ==>
      r.row == e.row - 1 && r.col <= e.col &&
      (r.col == e.col || r.col == |e.lines[e.row - 1]|)
  {
    if e.row > 0 then
      e.(row := e.row - 1, col := Clamp(e.col, |e.lines[e.row - 1]|))
    else e
  }

  /** Arrow down: onto the next line, or, from the last line, onto a new empty
      line appended when there is a free row. The new line's index is
      |lines|, which is row + 1 whenever the buffer is not empty. */
  function MoveDown(e: Editor): (r: Editor)
    requires Valid(e)
    ensures Valid(r) && r.mode == e.mode
    ensures e.row + 1 < |e.lines| ==>
      r.lines == e.lines && r.row == e.row + 1 && r.col <= e.col &&
      (r.col == e.col || r.col == |e.lines[e.row + 1]|)
    ensures e.row + 1 >= |e.lines| && |e.lines| < MAX_ROWS ==>
      r.lines == e.lines + [[]] && r.row == |e.lines| && r.col == 0
    ensures e.row + 1 >= |e.lines| && |e.lines| >= MAX_ROWS ==> r == e
    ensures |e.lines| > 0 && r != e ==> r.row == e.row + 1
  {
    if e.row + 1 < |e.lines| then
      e.(row := e.row + 1, col := Clamp(e.col, |e.lines[e.row + 1]|))
    else if |e.lines| < MAX_ROWS then
      e.(lines := e.lines + [[]], row := |e.lines|, col := 0)
    else e
  }

  function MoveLeft(e: Editor): (r: Editor)
    requires Valid(e)
    ensures Valid(r) && r.lines == e.lines && r.mode == e.mode
    ensures e.col > 0 ==> r.row == e.row && r.col == e.col - 1
    ensures e.col == 0 && e.row > 0 ==> r.row == e.row - 1 && r.col == |e.lines[e.row - 1]|
    ensures e.col == 0 && e.row == 0 ==> r == e
  {
    if e.col > 0 then e.(col := e.col - 1)
    else if e.row > 0 then e.(row := e.row - 1, col := |e.lines[e.row - 1]|)
    else e
  }

  /** The cursor is just past the last character of the last line (or the buffer
      is empty): there is nowhere further right to go. */
  predicate AtEnd(e: Editor) {
    e.row + 1 >= |e.lines| && (e.row >= |e.lines| || e.col >= |e.lines[e.row]|)
  }

  function MoveRight(e: Editor): (r: Editor)
    requires Valid(e)
    ensures Valid(r) && r.lines == e.lines && r.mode == e.mode
    ensures r == e <==> AtEnd(e)
    ensures e.row < |e.lines| && e.col < |e.lines[e.row]| ==> r.row == e.row && r.col == e.col + 1
    ensures e.row < |e.lines| && e.col == |e.lines[e.row]| && !AtEnd(e) ==>
      r.row == e.row + 1 && r.col == 0
  {
    if e.row < |e.lines| && e.col < |e.lines[e.row]| then e.(col := e.col + 1)
    else if e.row + 1 < |e.lines| then e.(row := e.row + 1, col := 0)
    else e
  }

  /** What a keystroke asks of the world outside the buffer. */
  datatype Effect = Continue | WriteFile(text: string) | Exit

  datatype Transition = Transition(next: Editor, effect: Effect)

  /** One keystroke in Normal mode. */
  function Step(e: Editor, k: Key): (t: Transition)
    requires Valid(e) && e.mode == Normal
    ensures Valid(t.next)
    ensures t.next.mode == Command <==> k == Escape
    ensures t.effect.WriteFile? <==> k == Save
    ensures t.effect.WriteFile? ==> t.effect.text == Serialise(e.lines)
    ensures t.effect.WriteFile? ==>
      (Parse(t.effect.text) == e.lines || exists i :: 0 <= i < |e.lines| && |e.lines[i]| == MAX_COLS - 1)
    ensures !t.effect.WriteFile? ==> t.effect == Continue
    ensures k == Save || k == Escape ==>
      t.next.lines == e.lines && t.next.row == e.row && t.next.col == e.col
    ensures k == Up || k == Left || k == Right ==> t.next.lines == e.lines
  {
    match k
    case Char(ch) => Transition(InsertChar(e, ch), Continue)
    case Backspace => Transition(DeleteBefore(e), Continue)
    case Enter => Transition(SplitLine(e), Continue)
    case Up => Transition(MoveUp(e), Continue)
    case Down => Transition(MoveDown(e), Continue)
    case Left => Transition(MoveLeft(e), Continue)
    case Right => Transition(MoveRight(e), Continue)
    case Save =>
      SaveReloads(e.lines);
      Transition(e, WriteFile(Serialise(e.lines)))
    case Escape => Transition(e.(mode := Command), Continue)
  }

  /** A saved buffer loads back as itself unless one of its lines is full. */
  lemma {:induction false} SaveReloads(lines: seq<string>)
    requires LinesFit(lines)
    ensures Parse(Serialise(lines)) == lines ||
            exists i :: 0 <= i < |lines| && |lines[i]| == MAX_COLS - 1
  {
    if forall i :: 0 <= i < |lines| ==> |lines[i]| <= MAX_COLS - 2 {
      SaveLoadRoundTrip(lines);
    }
  }

  /** The editor right after loading `text`: the cursor is where printing the
      last loaded line left it. */
  function Open(text: string): (e: Editor)
    ensures Valid(e) && e.mode == Normal && e.lines == Parse(text)
    ensures |e.lines| > 0 ==> e.row == |e.lines| - 1 && e.col == |e.lines[e.row]|
  {
    var lines := Parse(text);
    if |lines| == 0 then Editor(lines, 0, 0, Normal)
    else Editor(lines, |lines| - 1, |lines[|lines| - 1]|, Normal)
  }
}

/** A reference reading of the editor: the text a save would write, with the
    cursor as a position in that text. Against it every edit is a one-character
    edit of a flat string and every horizontal move is a step of one character. */
module TextView {
  import opened Buffer
  import opened FileText

  /** A text with a position in it. */
  datatype Point = Point(text: string, at: nat)

  /** Where the cursor (row, col) sits in the saved text. */
  function Offset(lines: seq<string>, row: nat, col: nat): nat
    requires row <= |lines|
  {
    |Serialise(lines[..row])| + col
  }

  /** The editor as a position in its saved text. The position is never past the
      final newline. */
  function View(e: Editor): (p: Point)
    requires CursorOk(e.lines, e.row, e.col)
    ensures |e.lines| == 0 ==> p == Point([], 0)
    ensures |e.lines| > 0 ==> p.at < |p.text|
  {
    if |e.lines| == 0 then Point([], 0)
    else
      SerialiseAround(e.lines, e.row);
      Point(Serialise(e.lines), Offset(e.lines, e.row, e.col))
  }

  /** A character typed at the position, which moves past it. */
  function InsertAt(p: Point, c: char): Point
    requires p.at <= |p.text|
  {
    Point(p.text[..p.at] + [c] + p.text[p.at..], p.at + 1)
  }

  /** The character before the position removed. */
  function DeleteAt(p: Point): Point
    requires 0 < p.at <= |p.text|
  {
    Point(p.text[..p.at - 1] + p.text[p.at..], p.at - 1)
  }

  function Forward(p: Point): Point {
    Point(p.text, p.at + 1)
  }

  function Backward(p: Point): Point
    requires p.at > 0
  {
    Point(p.text, p.at - 1)
  }

  /** Serialising with one line replaced. */
  lemma {:induction false} SerialiseReplace(lines: seq<string>, r: nat, m: string)
    requires r < |lines|
    ensures Serialise(lines[r := m]) ==
            Serialise(lines[..r]) + m + "\n" + Serialise(lines[r + 1..])
  {
    SerialiseAround(lines[r := m], r);
    assert lines[r := m][..r] == lines[..r];
    assert lines[r := m][r + 1..] == lines[r + 1..];
  }

  /** The saved text up to the start of line r + 1. */
  lemma {:induction false} SerialiseThrough(lines: seq<string>, r: nat)
    requires r < |lines|
    ensures Serialise(lines[..r + 1]) == Serialise(lines[..r]) + lines[r] + "\n"
  {
    assert lines[..r + 1] == lines[..r] + [lines[r]];
    SerialiseAppend(lines[..r], [lines[r]]);
  }

  /** The view around the cursor's line: the saved text before it, the line and
      its newline, the saved text after it. */
  lemma {:induction false} ViewAround(e: Editor)
    requires CursorOk(e.lines, e.row, e.col) && |e.lines| > 0
    ensures View(e) == Point(Serialise(e.lines[..e.row]) + e.lines[e.row] +
                             ("\n" + Serialise(e.lines[e.row + 1..])),
                             |Serialise(e.lines[..e.row])| + e.col)
  {
    SerialiseAround(e.lines, e.row);
    var a, l, b := Serialise(e.lines[..e.row]), e.lines[e.row], Serialise(e.lines[e.row + 1..]);
    assert a + l + "\n" + b == a + l + ("\n" + b);
  }

  /** The view after the cursor's line is replaced and the cursor moved along it. */
  lemma {:induction false} ViewReplace(e: Editor, m: string, col: nat)
    requires CursorOk(e.lines, e.row, e.col) && |e.lines| > 0 && col <= |m|
    ensures View(e.(lines := e.lines[e.row := m], col := col)) ==
            Point(Serialise(e.lines[..e.row]) + m + ("\n" + Serialise(e.lines[e.row + 1..])),
                  |Serialise(e.lines[..e.row])| + col)
  {
    SerialiseReplace(e.lines, e.row, m);
    assert e.lines[e.row := m][..e.row] == e.lines[..e.row];
  }

  /** The view after the cursor's line is cut in two at column c, with the cursor
      at the start of the second half. */
  lemma {:induction false} ViewSplit(e: Editor, c: nat)
    requires CursorOk(e.lines, e.row, e.col) && |e.lines| > 0 && c <= |e.lines[e.row]|
    ensures var l := e.lines[e.row];
            View(e.(lines := e.lines[..e.row] + [l[..c], l[c..]] + e.lines[e.row + 1..],
                    row := e.row + 1, col := 0)) ==
            Point(Serialise(e.lines[..e.row]) + l[..c] + "\n" +
                  (l[c..] + "\n" + Serialise(e.lines[e.row + 1..])),
                  |Serialise(e.lines[..e.row]) + l[..c] + "\n"|)
  {
    var r, l := e.row, e.lines[e.row];
    var front, back := e.lines[..r], e.lines[r + 1..];
    SerialiseTwo(front, l[..c], l[c..], back);
    SerialiseTwoFront(front, l[..c], l[c..], back);
    var e' := e.(lines := front + [l[..c], l[c..]] + back, row := r + 1, col := 0);
    assert View(e') == Point(Serialise(e'.lines), |Serialise(e'.lines[..r + 1])|);
  }

  /** Putting a character into the cursor's line at the cursor and moving past it
      types that character into the saved text at the cursor. */
  lemma {:induction false} ViewInsert(e: Editor, ch: char)
    requires CursorOk(e.lines, e.row, e.col) && |e.lines| > 0
    ensures var l := e.lines[e.row];
            View(e.(lines := e.lines[e.row := l[..e.col] + [ch] + l[e.col..]], col := e.col + 1)) ==
            InsertAt(View(e), ch)
  {
    var r, c, l := e.row, e.col, e.lines[e.row];
    ViewAround(e);
    ViewReplace(e, l[..c] + [ch] + l[c..], c + 1);
    InsertInside(View(e), Serialise(e.lines[..r]), l, "\n" + Serialise(e.lines[r + 1..]), c, ch);
  }

  /** Taking the character before the cursor out of its line and moving back
      deletes that character from the saved text. */
  lemma {:induction false} ViewDelete(e: Editor)
    requires CursorOk(e.lines, e.row, e.col) && |e.lines| > 0 && e.col > 0
    ensures 0 < View(e).at
    ensures var l := e.lines[e.row];
            View(e.(lines := e.lines[e.row := l[..e.col - 1] + l[e.col..]], col := e.col - 1)) ==
            DeleteAt(View(e))
  {
    var r, c, l := e.row, e.col, e.lines[e.row];
    ViewAround(e);
    ViewReplace(e, l[..c - 1] + l[c..], c - 1);
    DeleteInside(View(e), Serialise(e.lines[..r]), l, "\n" + Serialise(e.lines[r + 1..]), c);
  }

  /** Cutting the cursor's line at the cursor, with the cursor moved to the start
      of the second half, types a newline into the saved text at the cursor. */
  lemma {:induction false} ViewNewline(e: Editor)
    requires CursorOk(e.lines, e.row, e.col) && |e.lines| > 0
    ensures var l := e.lines[e.row];
            View(e.(lines := e.lines[..e.row] + [l[..e.col], l[e.col..]] + e.lines[e.row + 1..],
                    row := e.row + 1, col := 0)) ==
            InsertAt(View(e), '\n')
  {
    ViewSplit(e, e.col);
    NewlineAt(e);
  }

  /** A newline typed at the cursor, as the text before the cursor's line, the
      line cut in two at the cursor, and the text after. */
  lemma {:induction false} NewlineAt(e: Editor)
    requires CursorOk(e.lines, e.row, e.col) && |e.lines| > 0
    ensures var l, a := e.lines[e.row], Serialise(e.lines[..e.row]);
            InsertAt(View(e), '\n') ==
            Point(a + l[..e.col] + "\n" + (l[e.col..] + "\n" + Serialise(e.lines[e.row + 1..])),
                  |a + l[..e.col] + "\n"|)
  {
    ViewAround(e);
    NewlineInside(View(e), Serialise(e.lines[..e.row]), e.lines[e.row],
                  Serialise(e.lines[e.row + 1..]), e.col);
  }

  /** A newline typed inside a marked-off line of a text cuts it in two. */
  lemma {:induction false} NewlineInside(p: Point, a: string, l: string, b: string, c: nat)
    requires c <= |l| && p == Point(a + l + ("\n" + b), |a| + c)
    ensures InsertAt(p, '\n') == Point(a + l[..c] + "\n" + (l[c..] + "\n" + b), |a + l[..c] + "\n"|)
  {
    InsertInside(p, a, l, "\n" + b, c, '\n');
    assert a + (l[..c] + ['\n'] + l[c..]) + ("\n" + b) == a + l[..c] + "\n" + (l[c..] + "\n" + b);
  }

  /** Serialising lines with two marked in the middle, through the first of them. */
  lemma {:induction false} SerialiseTwoFront(front: seq<string>, x: string, y: string, back: seq<string>)
    ensures Serialise((front + [x, y] + back)[..|front| + 1]) == Serialise(front) + x + "\n"
  {
    var all, r := front + [x, y] + back, |front|;
    assert all[..r] == front;
    assert all[r] == x;
    SerialiseThrough(all, r);
  }

  /** Serialising lines with two marked in the middle. */
  lemma {:induction false} SerialiseTwo(front: seq<string>, x: string, y: string, back: seq<string>)
    ensures Serialise(front + [x, y] + back) ==
            Serialise(front) + x + "\n" + (y + "\n" + Serialise(back))
  {
    var all, r := front + [x, y] + back, |front|;
    assert all[r + 1] == y;
    assert all[r + 2..] == back;
    SerialiseTwoFront(front, x, y, back);
    SerialiseAround(all, r + 1);
    var f, t := Serialise(front), Serialise(back);
    assert f + x + "\n" + y + "\n" + t == f + x + "\n" + (y + "\n" + t);
  }

  /** Typing into a marked-off line of a text is typing into the text. */
  lemma {:induction false} InsertInside(p: Point, a: string, l: string, b: string, c: nat, ch: char)
    requires c <= |l| && p == Point(a + l + b, |a| + c)
    ensures InsertAt(p, ch) ==
            Point(a + (l[..c] + [ch] + l[c..]) + b, |a| + c + 1)
  {
    CutInside(a, l, b, c);
    Regroup(a, l[..c], [ch], l[c..], b);
  }

  /** Deleting inside a marked-off line of a text is deleting from the text. */
  lemma {:induction false} DeleteInside(p: Point, a: string, l: string, b: string, c: nat)
    requires 0 < c <= |l| && p == Point(a + l + b, |a| + c)
    ensures DeleteAt(p) ==
            Point(a + (l[..c - 1] + l[c..]) + b, |a| + c - 1)
  {
    CutInside(a, l, b, c - 1);
    CutInside(a, l, b, c);
  }

  lemma {:induction false} Regroup(a: string, x: string, m: string, y: string, b: string)
    ensures a + x + m + (y + b) == a + (x + m + y) + b
  {
  }

  /** Splitting a text at a position inside a marked-off line. */
  lemma {:induction false} CutInside(a: string, l: string, b: string, c: nat)
    requires c <= |l|
    ensures (a + l + b)[..|a| + c] == a + l[..c]
    ensures (a + l + b)[|a| + c..] == l[c..] + b
  {
    assert a + l + b == (a + l[..c]) + (l[c..] + b);
  }
}

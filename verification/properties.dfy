/** What the keystrokes mean: each edit against the saved-text reading, the
    inverse pairs (split/join, insert/delete, opposite moves), and typing. */
module EditProperties {
  import opened Buffer
  import opened Keys
  import opened FileText
  import opened Editing
  import opened TextView

  /** Typing a character is inserting it into the saved text at the cursor; an
      empty buffer reads as its one empty line, "\n". */
  lemma {:induction false} InsertIsTextInsert(e: Editor, ch: TextChar)
    requires Valid(e) && CanInsert(e)
    ensures View(InsertChar(e, ch)) == InsertAt(View(Materialised(e)), ch)
  {
    var m := Materialised(e);
    InsertShape(e, ch);
    ViewInsert(m, ch);
  }

  /** Typing into an empty buffer gives the text of one line holding the
      character, with the cursor after it. */
  lemma {:induction false} InsertIntoEmptyText(mode: Mode, ch: TextChar)
    ensures View(InsertChar(Editor([], 0, 0, mode), ch)) == Point([ch, '\n'], 1)
  {
    var e := Editor([], 0, 0, mode);
    InsertIsTextInsert(e, ch);
    assert View(Materialised(e)) == Point("\n", 0) by {
      assert Serialise([[]]) == "\n";
    }
  }

  /** Typing as a rebuilt editor: the cursor's line with the character added. */
  lemma {:induction false} InsertShape(e: Editor, ch: TextChar)
    requires Valid(e) && CanInsert(e)
    ensures var m := Materialised(e); var l := m.lines[m.row];
            InsertChar(e, ch) == m.(lines := m.lines[m.row := l[..m.col] + [ch] + l[m.col..]],
                                    col := m.col + 1)
  {
  }

  /** Backspace inside a line as a rebuilt editor: the cursor's line without the
      character before the cursor. */
  lemma {:induction false} DeleteShape(e: Editor)
    requires Valid(e) && e.col > 0
    ensures var l := e.lines[e.row];
            DeleteBefore(e) == e.(lines := e.lines[e.row := l[..e.col - 1] + l[e.col..]],
                                  col := e.col - 1)
  {
  }

  /** Backspace inside a line deletes the character before the cursor from the
      saved text. */
  lemma {:induction false} DeleteInLineIsTextDelete(e: Editor)
    requires Valid(e) && e.col > 0
    ensures 0 < View(e).at
    ensures View(DeleteBefore(e)) == DeleteAt(View(e))
  {
    DeleteShape(e);
    ViewDelete(e);
  }

  /** Text facts behind a join: removing the newline between two lines. */
  lemma {:induction false} JoinText(a: string, p: string, l: string, b: string)
    ensures DeleteAt(Point(a + p + "\n" + l + ("\n" + b), |a + p + "\n"|)) ==
            Point(a + (p + l) + ("\n" + b), |a| + |p|)
  {
    var t := a + p + "\n" + l + ("\n" + b);
    assert t[..|a + p + "\n"| - 1] == a + p;
    assert t[|a + p + "\n"|..] == l + ("\n" + b);
  }

  /** Backspace at the start of a line that joins deletes the newline before the
      cursor from the saved text. */
  lemma {:induction false} JoinIsTextDelete(e: Editor)
    requires Valid(e) && e.col == 0 && e.row > 0 && JoinFits(e.lines, e.row)
    ensures 0 < View(e).at
    ensures View(DeleteBefore(e)) == DeleteAt(View(e))
  {
    var r := e.row;
    var p, l := e.lines[r - 1], e.lines[r];
    var e' := DeleteBefore(e);
    assert e'.lines[..r - 1] == e.lines[..r - 1];
    assert e'.lines[r..] == e.lines[r + 1..];
    assert e'.lines[r - 1] == p + l;
    ViewAround(e);
    ViewAround(e');
    SerialiseThrough(e.lines, r - 1);
    var a, b := Serialise(e.lines[..r - 1]), Serialise(e.lines[r + 1..]);
    JoinText(a, p, l, b);
  }

  /** Backspace that does something deletes the character before the cursor from
      the saved text, the newline that ends the previous line included. */
  lemma {:induction false} BackspaceIsTextDelete(e: Editor)
    requires Valid(e) && DeleteBefore(e) != e
    ensures 0 < View(e).at
    ensures View(DeleteBefore(e)) == DeleteAt(View(e))
  {
    if e.col > 0 {
      DeleteInLineIsTextDelete(e);
    } else {
      JoinIsTextDelete(e);
    }
  }

  /** Enter as a rebuilt editor: the cursor's line cut in two. */
  lemma {:induction false} SplitShape(e: Editor)
    requires Valid(e) && CanSplit(e)
    ensures var m := Materialised(e); var l := m.lines[m.row];
            SplitLine(e) == m.(lines := m.lines[..m.row] + [l[..m.col], l[m.col..]] + m.lines[m.row + 1..],
                               row := m.row + 1, col := 0)
  {
  }

  /** Enter is typing a newline into the saved text at the cursor; an empty
      buffer reads as its one empty line, "\n". */
  lemma {:induction false} EnterIsTextNewline(e: Editor)
    requires Valid(e) && CanSplit(e)
    ensures View(SplitLine(e)) == InsertAt(View(Materialised(e)), '\n')
    ensures |e.lines| > 0 ==> View(SplitLine(e)) == InsertAt(View(e), '\n')
    ensures |e.lines| == 0 ==> View(SplitLine(e)) == Point("\n\n", 1)
  {
    var m := Materialised(e);
    SplitShape(e);
    ViewNewline(m);
  }

  /** Arrow right steps one character forward in the saved text, except at its
      very end. */
  lemma {:induction false} RightIsStepForward(e: Editor)
    requires Valid(e) && !AtEnd(e)
    ensures View(MoveRight(e)) == Forward(View(e))
  {
    var r := e.row;
    if e.col == |e.lines[r]| {
      SerialiseThrough(e.lines, r);
    }
  }

  /** Arrow left steps one character back in the saved text, except at its start. */
  lemma {:induction false} LeftIsStepBackward(e: Editor)
    requires Valid(e) && View(e).at > 0
    ensures View(MoveLeft(e)) == Backward(View(e))
  {
    if e.col == 0 {
      SerialiseThrough(e.lines, e.row - 1);
    }
  }

  /** The cursor is at the start of the saved text exactly at the origin. */
  lemma {:induction false} AtStartIsOrigin(e: Editor)
    requires Valid(e)
    ensures View(e).at == 0 <==> e.row == 0 && e.col == 0
  {
    if |e.lines| > 0 && e.row > 0 {
      SerialiseThrough(e.lines, e.row - 1);
    }
  }

  /** The cursor is at the end (on the final newline, or in an empty text) exactly
      where arrow right has nowhere to go. */
  lemma {:induction false} AtEndIsTextEnd(e: Editor)
    requires Valid(e)
    ensures AtEnd(e) <==> View(e).at + 1 >= |View(e).text|
  {
    if |e.lines| > 0 {
      SerialiseAround(e.lines, e.row);
    }
  }

  /** Arrow down from the last line, with a free row, appends one newline to the
      saved text and puts the cursor after it. */
  lemma {:induction false} DownAppendIsTextNewline(e: Editor)
    requires Valid(e) && e.row + 1 >= |e.lines| && |e.lines| < MAX_ROWS
    ensures View(MoveDown(e)) == Point(View(e).text + "\n", |View(e).text|)
  {
    var e' := MoveDown(e);
    SerialiseAppend(e.lines, [[]]);
    assert e'.lines[..|e.lines|] == e.lines;
  }

  /** Enter then Backspace restores the buffer and the cursor: the join always fits
      because the two halves came from one line. */
  lemma {:induction false} SplitThenJoin(e: Editor)
    requires Valid(e) && CanSplit(e)
    ensures DeleteBefore(SplitLine(e)) == Materialised(e)
    ensures |e.lines| > 0 ==> DeleteBefore(SplitLine(e)) == e
  {
    var m := Materialised(e);
    var r, c, l := m.row, m.col, m.lines[m.row];
    var e' := SplitLine(e);
    assert JoinFits(e'.lines, r + 1);
    var e'' := DeleteBefore(e');
    assert e''.lines[r] == l[..c] + l[c..] == l;
    assert e''.lines == m.lines;
  }

  /** A typed character is removed again by Backspace. */
  lemma {:induction false} InsertThenDelete(e: Editor, ch: TextChar)
    requires Valid(e) && CanInsert(e)
    ensures DeleteBefore(InsertChar(e, ch)) == Materialised(e)
    ensures |e.lines| > 0 ==> DeleteBefore(InsertChar(e, ch)) == e
  {
    var m := Materialised(e);
    var r, c, l := m.row, m.col, m.lines[m.row];
    var e' := InsertChar(e, ch);
    var l' := e'.lines[r];
    assert l' == l[..c] + [ch] + l[c..] by {
      assert l' == l'[..c] + [l'[c]] + l'[c + 1..];
    }
    var e'' := DeleteBefore(e');
    assert e''.lines[r] == l' [..c] + l'[c + 1..] == l;
    assert e''.lines == m.lines;
  }

  /** Up then Down returns to the same place when the column exists on the line above. */
  lemma {:induction false} UpThenDown(e: Editor)
    requires Valid(e) && e.row > 0 && e.col <= |e.lines[e.row - 1]|
    ensures MoveDown(MoveUp(e)) == e
  {
  }

  /** Down then Up returns to the same place when the column exists on the line below. */
  lemma {:induction false} DownThenUp(e: Editor)
    requires Valid(e) && e.row + 1 < |e.lines| && e.col <= |e.lines[e.row + 1]|
    ensures MoveUp(MoveDown(e)) == e
  {
  }

  /** Right then Left returns to the same place unless Right had nowhere to go. */
  lemma {:induction false} RightThenLeft(e: Editor)
    requires Valid(e) && !AtEnd(e)
    ensures MoveLeft(MoveRight(e)) == e
  {
  }

  /** Left then Right returns to the same place unless Left had nowhere to go. */
  lemma {:induction false} LeftThenRight(e: Editor)
    requires Valid(e) && (e.row > 0 || e.col > 0)
    ensures MoveRight(MoveLeft(e)) == e
  {
  }

  /** A run of typed characters. */
  function TypeText(e: Editor, s: seq<TextChar>): (r: Editor)
    requires Valid(e)
    ensures Valid(r)
    decreases |s|
  {
    if |s| == 0 then e else TypeText(InsertChar(e, s[0]), s[1..])
  }

  /** Typing characters that fit on the line puts exactly them, in order, at the
      cursor and moves the cursor past them; no other line changes. */
  lemma {:induction false} TypingInserts(e: Editor, s: seq<TextChar>)
    requires Valid(e) && e.row < |e.lines|
    requires |e.lines[e.row]| + |s| <= MAX_COLS - 1
    ensures TypeText(e, s).row == e.row && TypeText(e, s).col == e.col + |s|
    ensures TypeText(e, s).mode == e.mode
    ensures TypeText(e, s).lines ==
            e.lines[e.row := e.lines[e.row][..e.col] + s + e.lines[e.row][e.col..]]
    decreases |s|
  {
    var r, c, l := e.row, e.col, e.lines[e.row];
    if |s| == 0 {
      assert l[..c] + s + l[c..] == l;
      assert e.lines[r := l] == e.lines;
    } else {
      var e' := InsertChar(e, s[0]);
      var l' := e'.lines[r];
      assert l' == l[..c] + [s[0]] + l[c..] by {
        assert l' == l'[..c] + [l'[c]] + l'[c + 1..];
      }
      assert e'.lines == e.lines[r := l'];
      TypingInserts(e', s[1..]);
      assert l'[..c + 1] == l[..c] + [s[0]];
      assert l'[c + 1..] == l[c..];
      assert l[..c] + [s[0]] + s[1..] == l[..c] + s;
      assert l'[..c + 1] + s[1..] + l'[c + 1..] == l[..c] + s + l[c..];
    }
  }

  /** Typing into an empty buffer makes the typed characters its one line, with
      the cursor after them. */
  lemma {:induction false} TypingIntoEmpty(mode: Mode, s: seq<TextChar>)
    requires 0 < |s| <= MAX_COLS - 1
    ensures TypeText(Editor([], 0, 0, mode), s) == Editor([s], 0, |s|, mode)
  {
    var e' := InsertChar(Editor([], 0, 0, mode), s[0]);
    assert e' == Editor([[s[0]]], 0, 1, mode);
    TypingInserts(e', s[1..]);
    assert [s[0]][..1] + s[1..] + [s[0]][1..] == s;
    assert TypeText(Editor([], 0, 0, mode), s) == TypeText(e', s[1..]);
  }

  /** Backspace at the start of the second of ["abc", "de", "f"] joins the first
      two lines and leaves the cursor where "abc" ended. */
  lemma {:induction false} JoinExample()
    ensures DeleteBefore(Editor(["abc", "de", "f"], 1, 0, Normal)) ==
            Editor(["abcde", "f"], 0, 3, Normal)
  {
    var e := Editor(["abc", "de", "f"], 1, 0, Normal);
    assert JoinFits(e.lines, 1);
    assert e.lines[..0] == [] && e.lines[2..] == ["f"];
    assert "abc" + "de" == "abcde";
  }
}

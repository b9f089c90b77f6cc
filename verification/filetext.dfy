/** Conversion between the text of a file and the buffer's lines: what the load
    loop builds from the file, and what a save writes back. A file's text is its
    bytes, one `char` per byte, so every length here is a count of bytes. */
module FileText {
  import opened Buffer

  /** How many characters one `fgets(data, MAX_COLS, file)` call takes from the
      front of `text`: through the first newline, but never more than MAX_COLS - 1.
      ChunkLenSpec and ChunkLenUnique characterise the number. */
  function ChunkLen(text: string): (k: nat)
    requires |text| > 0
    ensures 0 < k <= |text| && k <= MAX_COLS - 1
  {
    ChunkLenFrom(text, 0)
  }

  /** The scan of one read from position i on. */
  function ChunkLenFrom(text: string, i: nat): (k: nat)
    requires i < |text| && i < MAX_COLS - 1
    ensures i < k <= |text| && k <= MAX_COLS - 1
    decreases |text| - i
  {
    if text[i] == '\n' || i + 1 == |text| || i + 1 == MAX_COLS - 1 then i + 1
    else ChunkLenFrom(text, i + 1)
  }

  /** What one read stops at, given no newline before position i. */
  lemma {:induction false} ChunkLenFromSpec(text: string, i: nat)
    requires i < |text| && i < MAX_COLS - 1
    requires forall j :: 0 <= j < i ==> text[j] != '\n'
    ensures forall j :: 0 <= j < ChunkLenFrom(text, i) - 1 ==> text[j] != '\n'
    ensures var k := ChunkLenFrom(text, i);
            text[k - 1] == '\n' || k == |text| || k == MAX_COLS - 1
    decreases |text| - i
  {
    if !(text[i] == '\n' || i + 1 == |text| || i + 1 == MAX_COLS - 1) {
      ChunkLenFromSpec(text, i + 1);
    }
  }

  /** One read takes no newline but its last character, and stops at a newline,
      at the end of the text, or at MAX_COLS - 1 characters. */
  lemma {:induction false} ChunkLenSpec(text: string)
    requires |text| > 0
    ensures forall j :: 0 <= j < ChunkLen(text) - 1 ==> text[j] != '\n'
    ensures var k := ChunkLen(text);
            text[k - 1] == '\n' || k == |text| || k == MAX_COLS - 1
  {
    ChunkLenFromSpec(text, 0);
  }

  /** Those conditions leave one possible length: any length meeting them is the
      length of the read. */
  lemma {:induction false} ChunkLenUnique(text: string, m: nat)
    requires 0 < m <= |text| && m <= MAX_COLS - 1
    requires forall j :: 0 <= j < m - 1 ==> text[j] != '\n'
    requires text[m - 1] == '\n' || m == |text| || m == MAX_COLS - 1
    ensures ChunkLen(text) == m
  {
    ChunkLenSpec(text);
  }

  /** One trailing newline of a chunk is dropped. */
  function StripNewline(chunk: string): string {
    if |chunk| > 0 && chunk[|chunk| - 1] == '\n' then chunk[..|chunk| - 1] else chunk
  }

  /** The load loop from the point where `count` lines are already stored. The
      capacity test comes before the read, so reading stops at MAX_ROWS lines. */
  function LoadFrom(text: string, count: nat): (lines: seq<string>)
    requires count <= MAX_ROWS
    ensures count + |lines| <= MAX_ROWS
    decreases |text|
  {
    if |text| == 0 || count == MAX_ROWS then []
    else
      var k := ChunkLen(text);
      [StripNewline(text[..k])] + LoadFrom(text[k..], count + 1)
  }

  /** Every line a load stores fits a buffer line. */
  lemma {:induction false} LoadFits(text: string, count: nat)
    requires count <= MAX_ROWS
    ensures forall i :: 0 <= i < |LoadFrom(text, count)| ==> LineFits(LoadFrom(text, count)[i])
    decreases |text|
  {
    if |text| > 0 && count < MAX_ROWS {
      var k := ChunkLen(text);
      ChunkLenSpec(text);
      var line := StripNewline(text[..k]);
      assert forall i :: 0 <= i < |line| ==> line[i] != '\n';
      LoadFits(text[k..], count + 1);
    }
  }

  /** The buffer a file's text loads as. */
  function Parse(text: string): (lines: seq<string>)
    ensures LinesFit(lines)
  {
    LoadFits(text, 0);
    LoadFrom(text, 0)
  }

  /** What a save writes: every line followed by a newline, in order. */
  function Serialise(lines: seq<string>): (text: string)
    ensures |text| >= |lines|
    ensures |text| == 0 <==> |lines| == 0
    ensures |lines| > 0 ==> text[|text| - 1] == '\n'
  {
    if |lines| == 0 then [] else lines[0] + "\n" + Serialise(lines[1..])
  }

  /** Index of the first newline of `text`, or |text| when it has none. */
  function LineEnd(text: string): (n: nat)
    ensures n <= |text|
  {
    if |text| == 0 || text[0] == '\n' then 0 else 1 + LineEnd(text[1..])
  }

  /** LineEnd stops at the first newline and at nothing else. */
  lemma {:induction false} LineEndSpec(text: string)
    ensures forall i :: 0 <= i < LineEnd(text) ==> text[i] != '\n'
    ensures LineEnd(text) < |text| ==> text[LineEnd(text)] == '\n'
    decreases |text|
  {
    if |text| > 0 && text[0] != '\n' {
      LineEndSpec(text[1..]);
      assert forall i :: 1 <= i < LineEnd(text) ==> text[i] == text[1..][i - 1];
    }
  }

  /** The lines of a text as a reader counts them, with no capacity: every newline
      ends one, and a final fragment with no newline after it is a line too. */
  function SplitLines(text: string): (lines: seq<string>)
    ensures forall i :: 0 <= i < |lines| ==> '\n' !in lines[i]
    decreases |text|
  {
    if |text| == 0 then []
    else
      var n := LineEnd(text);
      LineEndSpec(text);
      assert forall i :: 0 <= i < n ==> text[..n][i] != '\n';
      [text[..n]] + (if n < |text| then SplitLines(text[n + 1..]) else [])
  }

  /** The characters of a text other than newlines, in order. */
  function DropNewlines(text: string): string {
    if |text| == 0 then []
    else (if text[0] == '\n' then [] else [text[0]]) + DropNewlines(text[1..])
  }

  /** The lines of a buffer run together, with nothing between them. */
  function Joined(lines: seq<string>): string {
    if |lines| == 0 then [] else lines[0] + Joined(lines[1..])
  }

  /** A text a load reproduces exactly: at most MAX_ROWS lines, and each line short
      enough that it and its newline fit in one read. */
  predicate Loadable(text: string) {
    var lines := SplitLines(text);
    |lines| <= MAX_ROWS && forall i :: 0 <= i < |lines| ==> |lines[i]| <= MAX_COLS - 2
  }

  lemma {:induction false} SerialiseAppend(a: seq<string>, b: seq<string>)
    ensures Serialise(a + b) == Serialise(a) + Serialise(b)
  {
    if |a| == 0 {
      assert a + b == b;
    } else {
      assert (a + b)[1..] == a[1..] + b;
      SerialiseAppend(a[1..], b);
    }
  }

  /** Serialising around one line: what comes before it, the line and its newline,
      and what comes after. */
  lemma {:induction false} SerialiseAround(lines: seq<string>, r: nat)
    requires r < |lines|
    ensures Serialise(lines) ==
            Serialise(lines[..r]) + lines[r] + "\n" + Serialise(lines[r + 1..])
  {
    assert lines == lines[..r] + ([lines[r]] + lines[r + 1..]);
    SerialiseAppend(lines[..r], [lines[r]] + lines[r + 1..]);
    assert ([lines[r]] + lines[r + 1..])[1..] == lines[r + 1..];
  }

  /** A read of a text that starts with a short line and its newline takes exactly
      that line and newline. */
  lemma {:induction false} ChunkOfLine(text: string, n: nat)
    requires n < |text| && n <= MAX_COLS - 2 && text[n] == '\n'
    requires forall i :: 0 <= i < n ==> text[i] != '\n'
    ensures ChunkLen(text) == n + 1
  {
    ChunkLenUnique(text, n + 1);
  }

  /** A read of a short text with no newline takes all of it. */
  lemma {:induction false} ChunkOfRest(text: string)
    requires 0 < |text| <= MAX_COLS - 2
    requires forall i :: 0 <= i < |text| ==> text[i] != '\n'
    ensures ChunkLen(text) == |text|
  {
    ChunkLenUnique(text, |text|);
  }

  /** Loading the serialised form of short lines gives those lines back. */
  lemma {:induction false} LoadSerialised(lines: seq<string>, count: nat)
    requires count + |lines| <= MAX_ROWS
    requires forall i :: 0 <= i < |lines| ==> |lines[i]| <= MAX_COLS - 2 && '\n' !in lines[i]
    ensures LoadFrom(Serialise(lines), count) == lines
  {
    if |lines| > 0 {
      ShortTail(lines);
      LoadSerialised(lines[1..], count + 1);
      LoadCons(lines, count);
    }
  }

  /** What follows the first of a run of short lines is a run of short lines. */
  lemma {:induction false} ShortTail(lines: seq<string>)
    requires |lines| > 0
    requires forall i :: 0 <= i < |lines| ==> |lines[i]| <= MAX_COLS - 2 && '\n' !in lines[i]
    ensures forall i :: 0 <= i < |lines[1..]| ==> |lines[1..][i]| <= MAX_COLS - 2 && '\n' !in lines[1..][i]
  {
    var tail := lines[1..];
    forall i | 0 <= i < |tail| ensures |tail[i]| <= MAX_COLS - 2 && '\n' !in tail[i] {
      assert tail[i] == lines[i + 1];
    }
  }

  /** A short line in front of lines that load back keeps them loading back. */
  lemma {:induction false} LoadCons(lines: seq<string>, count: nat)
    requires |lines| > 0 && |lines[0]| <= MAX_COLS - 2 && '\n' !in lines[0] && count < MAX_ROWS
    requires LoadFrom(Serialise(lines[1..]), count + 1) == lines[1..]
    ensures LoadFrom(Serialise(lines), count) == lines
  {
    var l, tail := lines[0], lines[1..];
    LoadLine(l, Serialise(tail), count);
    SerialiseCons(l, tail);
    assert lines == [l] + tail;
  }

  /** Loading a short line and its newline in front of more text stores that line
      first. */
  lemma {:induction false} LoadLine(l: string, rest: string, count: nat)
    requires |l| <= MAX_COLS - 2 && '\n' !in l && count < MAX_ROWS
    ensures LoadFrom(l + "\n" + rest, count) == [l] + LoadFrom(rest, count + 1)
  {
    FirstLineRead(l, rest);
    LoadStep(l + "\n" + rest, count);
  }

  /** A read of a short line, its newline and more text takes the line and its
      newline, and leaves the rest. */
  lemma {:induction false} FirstLineRead(l: string, rest: string)
    requires |l| <= MAX_COLS - 2 && '\n' !in l
    ensures ChunkLen(l + "\n" + rest) == |l| + 1
    ensures StripNewline((l + "\n" + rest)[..|l| + 1]) == l
    ensures (l + "\n" + rest)[|l| + 1..] == rest
  {
    var text := l + "\n" + rest;
    assert forall i :: 0 <= i < |l| ==> text[i] == l[i];
    ChunkOfLine(text, |l|);
    assert text[..|l| + 1] == l + "\n";
  }

  /** Saving a buffer and loading the file again restores the buffer, when no line
      is so long that its newline would need a read of its own. */
  lemma {:induction false} SaveLoadRoundTrip(lines: seq<string>)
    requires |lines| <= MAX_ROWS
    requires forall i :: 0 <= i < |lines| ==> |lines[i]| <= MAX_COLS - 2 && '\n' !in lines[i]
    ensures Parse(Serialise(lines)) == lines
  {
    LoadSerialised(lines, 0);
  }

  /** On a loadable text the load loop finds exactly the lines a reader sees. */
  lemma {:induction false} LoadIsSplit(text: string, count: nat)
    requires count + |SplitLines(text)| <= MAX_ROWS
    requires forall i :: 0 <= i < |SplitLines(text)| ==> |SplitLines(text)[i]| <= MAX_COLS - 2
    ensures LoadFrom(text, count) == SplitLines(text)
    decreases |text|
  {
    if |text| > 0 {
      var n := LineEnd(text);
      if n < |text| {
        SplitTailShort(text);
        LoadIsSplit(text[n + 1..], count + 1);
        LoadFirstSplit(text, count);
      } else {
        LoadLastSplit(text, count);
      }
    }
  }

  /** A text with no newline and a short line loads as that line. */
  lemma {:induction false} LoadLastSplit(text: string, count: nat)
    requires 0 < |text| && LineEnd(text) == |text|
    requires count + |SplitLines(text)| <= MAX_ROWS
    requires forall i :: 0 <= i < |SplitLines(text)| ==> |SplitLines(text)[i]| <= MAX_COLS - 2
    ensures LoadFrom(text, count) == SplitLines(text)
  {
    SplitLinesStep(text);
    LineEndSpec(text);
    assert |SplitLines(text)[0]| <= MAX_COLS - 2;
    LoadAll(text, count);
  }

  /** The lines after the first line of a text of short lines are short too, and
      one fewer. */
  lemma {:induction false} SplitTailShort(text: string)
    requires 0 < |text| && LineEnd(text) < |text|
    requires forall i :: 0 <= i < |SplitLines(text)| ==> |SplitLines(text)[i]| <= MAX_COLS - 2
    ensures var more := SplitLines(text[LineEnd(text) + 1..]);
            |more| == |SplitLines(text)| - 1 &&
            forall i :: 0 <= i < |more| ==> |more[i]| <= MAX_COLS - 2
  {
    var lines := SplitLines(text);
    var more := SplitLines(text[LineEnd(text) + 1..]);
    SplitLinesStep(text);
    forall i | 0 <= i < |more| ensures |more[i]| <= MAX_COLS - 2 {
      assert more[i] == lines[i + 1];
    }
  }

  /** When the rest after the first line loads as the lines a reader sees in it,
      so does the whole text. */
  lemma {:induction false} LoadFirstSplit(text: string, count: nat)
    requires 0 < |text| && LineEnd(text) < |text|
    requires count + |SplitLines(text)| <= MAX_ROWS
    requires forall i :: 0 <= i < |SplitLines(text)| ==> |SplitLines(text)[i]| <= MAX_COLS - 2
    requires LoadFrom(text[LineEnd(text) + 1..], count + 1) == SplitLines(text[LineEnd(text) + 1..])
    ensures LoadFrom(text, count) == SplitLines(text)
  {
    SplitLinesStep(text);
    assert |SplitLines(text)[0]| <= MAX_COLS - 2;
    LoadToLineEnd(text, count);
  }

  /** The same, with the first newline found by LineEnd. */
  lemma {:induction false} LoadToLineEnd(text: string, count: nat)
    requires LineEnd(text) < |text| && LineEnd(text) <= MAX_COLS - 2 && count < MAX_ROWS
    ensures LoadFrom(text, count) ==
            [text[..LineEnd(text)]] + LoadFrom(text[LineEnd(text) + 1..], count + 1)
  {
    LineEndSpec(text);
    LoadFirstLine(text, LineEnd(text), count);
  }

  /** A text whose first newline closes a short line loads as that line, then
      whatever the rest loads as. */
  lemma {:induction false} LoadFirstLine(text: string, n: nat, count: nat)
    requires n < |text| && n <= MAX_COLS - 2 && count < MAX_ROWS
    requires text[n] == '\n' && forall i :: 0 <= i < n ==> text[i] != '\n'
    ensures LoadFrom(text, count) == [text[..n]] + LoadFrom(text[n + 1..], count + 1)
  {
    CutAround(text, n);
    LoadLine(text[..n], text[n + 1..], count);
  }

  /** A short text with no newline loads as one line. */
  lemma {:induction false} LoadAll(text: string, count: nat)
    requires 0 < |text| <= MAX_COLS - 2 && count < MAX_ROWS
    requires forall i :: 0 <= i < |text| ==> text[i] != '\n'
    ensures LoadFrom(text, count) == [text]
  {
    ChunkOfRest(text);
    LoadStep(text, count);
    assert text[..|text|] == text;
    assert text[|text|..] == [];
  }

  /** A text with a newline added when it does not already end with one. */
  function Terminated(text: string): string {
    if |text| == 0 || text[|text| - 1] == '\n' then text else text + "\n"
  }

  /** Terminating a text after its first line terminates the rest. */
  lemma {:induction false} TerminatedAfter(head: string, rest: string)
    ensures Terminated(head + "\n" + rest) == head + "\n" + Terminated(rest)
  {
    var t := head + "\n" + rest;
    if |rest| > 0 {
      assert t[|t| - 1] == rest[|rest| - 1];
      assert t + "\n" == head + "\n" + (rest + "\n");
    }
  }

  /** The first line a reader sees, and the rest. */
  lemma {:induction false} SplitLinesStep(text: string)
    requires |text| > 0
    ensures LineEnd(text) < |text| ==>
            SplitLines(text) == [text[..LineEnd(text)]] + SplitLines(text[LineEnd(text) + 1..])
    ensures LineEnd(text) == |text| ==> SplitLines(text) == [text]
  {
    if LineEnd(text) == |text| {
      assert text[..|text|] == text;
    }
  }

  /** Writing the lines a reader sees reproduces the text, with a newline added
      when the text did not end with one. */
  lemma {:induction false} SerialiseSplit(text: string)
    ensures Serialise(SplitLines(text)) == Terminated(text)
    decreases |text|
  {
    if |text| > 0 {
      var n := LineEnd(text);
      SplitLinesStep(text);
      LineEndSpec(text);
      if n < |text| {
        var head, rest := text[..n], text[n + 1..];
        SerialiseSplit(rest);
        SerialiseCons(head, SplitLines(rest));
        CutAround(text, n);
        TerminatedAfter(head, rest);
        assert Serialise(SplitLines(text)) == head + "\n" + Terminated(rest);
      } else {
        SerialiseCons(text, []);
        assert text[|text| - 1] != '\n';
        assert Serialise(SplitLines(text)) == text + "\n";
      }
    }
  }

  /** A text is what comes before a newline at n, the newline, and what follows. */
  lemma {:induction false} CutAround(text: string, n: nat)
    requires n < |text| && text[n] == '\n'
    ensures text == text[..n] + "\n" + text[n + 1..]
  {
    assert text[..n + 1] == text[..n] + "\n";
    assert text == text[..n + 1] + text[n + 1..];
  }

  /** Serialising a line put in front of others. */
  lemma {:induction false} SerialiseCons(x: string, rest: seq<string>)
    ensures Serialise([x] + rest) == x + "\n" + Serialise(rest)
  {
    assert ([x] + rest)[1..] == rest;
  }

  /** Load followed by save: a loadable text comes back unchanged, except that a
      final line without a newline gains one. */
  lemma {:induction false} LoadSaveRoundTrip(text: string)
    requires Loadable(text)
    ensures Serialise(Parse(text)) == Terminated(text)
  {
    LoadIsSplit(text, 0);
    SerialiseSplit(text);
  }

  /** A line of MAX_COLS - 1 or more characters is not truncated: its first
      MAX_COLS - 1 characters become one buffer line and loading carries on with
      the remainder, as the next line. */
  lemma {:induction false} LongLineIsSplit(text: string, count: nat)
    requires count < MAX_ROWS && |text| >= MAX_COLS - 1
    requires forall i :: 0 <= i < MAX_COLS - 1 ==> text[i] != '\n'
    ensures LoadFrom(text, count) ==
            [text[..MAX_COLS - 1]] + LoadFrom(text[MAX_COLS - 1..], count + 1)
  {
    ChunkLenUnique(text, MAX_COLS - 1);
    LoadStep(text, count);
    assert StripNewline(text[..MAX_COLS - 1]) == text[..MAX_COLS - 1];
  }

  /** Sixty UTF-8 "é" characters, bytes C3 A9 repeated: the read stops after 99
      bytes, inside the fiftieth character, and the other 21 bytes make a second
      line. */
  lemma {:induction false} MultiByteLineExample()
    ensures var text := seq(120, i => if i % 2 == 0 then 0xC3 as char else 0xA9 as char);
            Parse(text) == [text[..99], text[99..]] && |Parse(text)[1]| == 21
  {
    var text := seq(120, i => if i % 2 == 0 then 0xC3 as char else 0xA9 as char);
    LongLineIsSplit(text, 0);
    var rest := text[99..];
    assert forall i :: 0 <= i < |rest| ==> rest[i] != '\n';
    LoadAll(rest, 1);
  }

  lemma {:induction false} DropNewlinesAppend(a: string, b: string)
    ensures DropNewlines(a + b) == DropNewlines(a) + DropNewlines(b)
  {
    if |a| == 0 {
      assert a + b == b;
    } else {
      assert (a + b)[1..] == a[1..] + b;
      DropNewlinesAppend(a[1..], b);
    }
  }

  lemma {:induction false} DropNoNewlines(s: string)
    requires forall i :: 0 <= i < |s| ==> s[i] != '\n'
    ensures DropNewlines(s) == s
  {
    if |s| > 0 {
      DropNoNewlines(s[1..]);
    }
  }

  /** Stripping a chunk loses exactly its newline. */
  lemma {:induction false} StripChunk(text: string)
    requires |text| > 0
    ensures StripNewline(text[..ChunkLen(text)]) == DropNewlines(text[..ChunkLen(text)])
  {
    var k := ChunkLen(text);
    ChunkLenSpec(text);
    var c := text[..k];
    if c[k - 1] == '\n' {
      assert c == c[..k - 1] + "\n";
      DropNewlinesAppend(c[..k - 1], "\n");
      DropNoNewlines(c[..k - 1]);
    } else {
      DropNoNewlines(c);
    }
  }

  /** One turn of the load loop: the first chunk, stripped, then the rest. */
  lemma {:induction false} LoadStep(text: string, count: nat)
    requires |text| > 0 && count < MAX_ROWS
    ensures LoadFrom(text, count) ==
            [StripNewline(text[..ChunkLen(text)])] + LoadFrom(text[ChunkLen(text)..], count + 1)
  {
  }

  lemma {:induction false} JoinedCons(x: string, rest: seq<string>)
    ensures Joined([x] + rest) == x + Joined(rest)
  {
    assert ([x] + rest)[1..] == rest;
  }

  /** A load that stopped below capacity read the whole text and lost nothing of
      it but newlines. */
  lemma {:induction false} LoadKeepsCharacters(text: string, count: nat)
    requires count <= MAX_ROWS
    requires count + |LoadFrom(text, count)| < MAX_ROWS
    ensures Joined(LoadFrom(text, count)) == DropNewlines(text)
    decreases |text|
  {
    if |text| > 0 {
      var k := ChunkLen(text);
      var head, rest := text[..k], text[k..];
      LoadStep(text, count);
      var tail := LoadFrom(rest, count + 1);
      LoadKeepsCharacters(rest, count + 1);
      JoinedCons(StripNewline(head), tail);
      StripChunk(text);
      assert text == head + rest;
      DropNewlinesAppend(head, rest);
    }
  }

  /** The first lines of `lines`, as many as `room` allows. */
  function FirstLines(lines: seq<string>, room: nat): (r: seq<string>)
    ensures |r| <= room && r <= lines
    ensures |lines| <= room ==> r == lines
    ensures |lines| >= room ==> |r| == room
  {
    if |lines| <= room then lines else lines[..room]
  }

  /** With short lines, a load keeps the lines a reader sees, in order, until the
      buffer is full, and drops the rest. */
  lemma {:induction false} LoadKeepsFirstLines(text: string, count: nat)
    requires count <= MAX_ROWS
    requires forall i :: 0 <= i < |SplitLines(text)| ==> |SplitLines(text)[i]| <= MAX_COLS - 2
    ensures LoadFrom(text, count) == FirstLines(SplitLines(text), MAX_ROWS - count)
    decreases |text|
  {
    if |text| > 0 && count < MAX_ROWS {
      if LineEnd(text) < |text| {
        SplitTailShort(text);
        LoadKeepsFirstLines(text[LineEnd(text) + 1..], count + 1);
        LoadFirstKept(text, count);
      } else {
        SplitLinesStep(text);
        LoadLastSplit(text, count);
      }
    }
  }

  /** When the rest after the first line loads as its first lines, the whole
      text loads as its own first lines. */
  lemma {:induction false} LoadFirstKept(text: string, count: nat)
    requires 0 < |text| && LineEnd(text) < |text| && count < MAX_ROWS
    requires forall i :: 0 <= i < |SplitLines(text)| ==> |SplitLines(text)[i]| <= MAX_COLS - 2
    requires var rest := text[LineEnd(text) + 1..];
             LoadFrom(rest, count + 1) == FirstLines(SplitLines(rest), MAX_ROWS - count - 1)
    ensures LoadFrom(text, count) == FirstLines(SplitLines(text), MAX_ROWS - count)
  {
    var n := LineEnd(text);
    SplitLinesStep(text);
    assert |SplitLines(text)[0]| <= MAX_COLS - 2;
    LoadToLineEnd(text, count);
    ConsFirstLines(text[..n], SplitLines(text[n + 1..]), MAX_ROWS - count - 1);
  }

  /** Taking the first lines commutes with putting a line in front. */
  lemma {:induction false} ConsFirstLines(x: string, more: seq<string>, room: nat)
    ensures FirstLines([x] + more, room + 1) == [x] + FirstLines(more, room)
  {
    if |more| > room {
      assert ([x] + more)[..room + 1] == [x] + more[..room];
    }
  }

  /** Whatever a load stores is the text's own characters, newlines left out, from
      the start and in order: a full buffer cuts the text short, it never changes it. */
  lemma {:induction false} LoadIsTextPrefix(text: string, count: nat)
    requires count <= MAX_ROWS
    ensures Joined(LoadFrom(text, count)) <= DropNewlines(text)
    decreases |text|
  {
    if |text| > 0 && count < MAX_ROWS {
      var k := ChunkLen(text);
      var head, rest := text[..k], text[k..];
      LoadStep(text, count);
      var tail := LoadFrom(rest, count + 1);
      LoadIsTextPrefix(rest, count + 1);
      JoinedCons(StripNewline(head), tail);
      StripChunk(text);
      assert text == head + rest;
      DropNewlinesAppend(head, rest);
      PrefixAfter(DropNewlines(head), Joined(tail), DropNewlines(rest));
    }
  }

  /** A prefix stays one when the same string goes in front of both. */
  lemma {:induction false} PrefixAfter(a: string, p: string, s: string)
    requires p <= s
    ensures a + p <= a + s
  {
    assert (a + s)[..|a + p|] == a + s[..|p|];
  }
}

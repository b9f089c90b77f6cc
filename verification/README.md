# Textor editor core in Dafny

This project models Textor, a terminal text editor written in C (`text_main.c`). Its in-memory
buffer holds at most 51 lines (`MAX_ROWS`). Each line has a 100-byte array (`MAX_COLS`), so it holds
at most 99 bytes. The model reads a file and a line as bytes, one `char` per byte, so "character" below means a byte. The editor keeps a cursor and reacts to one keystroke at a time. It can:

- insert a character;
- delete backwards, joining a line onto the previous one;
- split a line with Enter;
- move with the four arrow keys;
- save with Ctrl-X;
- open a command prompt with Escape, where `q` quits and `b` goes back to editing.

A file is loaded with repeated `fgets` calls and saved with one `fprintf("%s\n")` per line.

The model is a pure state machine:

| module | file | contents |
|---|---|---|
| `Buffer` | buffer.dfy | The capacities, and the state `Editor(lines, row, col, mode)`. The source reads the cursor back from the terminal; here it is explicit. `Valid` is the invariant: every line fits and holds no newline, and the cursor sits on a line, at most just past its end. An empty buffer, which is what an empty or unreadable file loads as, keeps the cursor at the origin. |
| `Keys` | keys.dfy | The keystroke a terminal delivers (`Press`), the engine's keys (`Key`), and the `switch` in `handle_keypress` as the decoder between them. |
| `FileText` | filetext.dfy | The load loop as `Parse`, built on `ChunkLen`, which is exactly what one `fgets` takes. The save loop as `Serialise`. Round trips in both directions, and what happens to over-long lines. |
| `Editing` | editing.dfy | Every edit and cursor move as a function of the state. `Step` dispatches one keystroke in Normal mode and returns the next state and an effect (`Continue`, `WriteFile(text)` or `Exit`). |
| `CommandPrompt` | commandprompt.dfy | The prompt's three-way decision, and the dispatch of an input in either mode. |
| `TextView` | textview.dfy | A reference reading of the editor: the saved text with the cursor as a position in it. Also the text-level edits the keystrokes are compared against. |
| `EditProperties` | properties.dfy | Each keystroke against that reading. Also the inverse pairs, and typing a run of characters. |
| `AsWritten` | aswritten.dfy | The source's behaviour where it breaks the invariant, side by side with the guarded engine (see Findings). |

The engine guards the places where the source does not keep its invariants:

- Typing needs a current line with room.
- Typing or Enter on an empty buffer first makes its one empty line real.
- Arrow right does nothing on an empty buffer.
- Arrow down on an empty buffer creates its first line.
- The load stops at 51 lines.
- A save leaves the cursor where it was, instead of where the success message ends.

The as-written behaviour of each of these is kept in `AsWritten`, and the difference is shown there.

Two load behaviours are easy to misread in the source:

- A line longer than the line storage is not truncated. Each `fgets` takes at most 99 characters, so the first 99 become one buffer line and the rest is read as the next line (`FileText.LongLineIsSplit`).
- A file that cannot be opened is not fatal. `load_file_into_buffer` prints an error and returns (text_main.c:49-51), and the editor starts with an empty buffer (`Editing.Open` of the empty text).

## Model

| member | source | states |
|---|---|---|
| Buffer.Valid | text_main.c:6-18 | A line holds at most MAX_COLS - 1 = 99 characters and no newline. There are at most MAX_ROWS = 51 lines. The cursor is on an existing line, at most one past its last character. An empty buffer has no line, and its cursor is at (0, 0). |
| Keys.Decode | text_main.c:119-221 | Each keystroke maps to exactly one case of the dispatch. Escape (27), delete (127) or KEY_BACKSPACE, Ctrl-X (24), newline (10) and the four arrow keys each map to their own case. Every other byte is a character to insert, carrying that same code. |
| Keys.DecodeEncode | text_main.c:119-221 | Every case of the dispatch is reached by some keystroke. |
| Keys.EncodeDecode | text_main.c:124-125 | Decoding loses nothing except the choice between the two backspace codes. |
| FileText.ChunkLen | text_main.c:55 | One `fgets(data, MAX_COLS, file)` on a non-empty text takes at least one character, at most 99, and never more than the text holds. |
| FileText.ChunkLenSpec | text_main.c:55 | A read takes no newline before its last character. It stops after the first newline, at the end of the text, or at 99 characters. |
| FileText.ChunkLenUnique | text_main.c:55 | Those stopping rules leave exactly one possible length: any length that meets them is the length of the read. |
| FileText.LoadFrom | text_main.c:54-63 | Started with `count` lines stored, the loop never brings the total past MAX_ROWS, because the guarded loop checks the capacity before each read. |
| FileText.LoadFits | text_main.c:54-63 | Every stored line fits its storage and holds no newline, because one trailing newline is stripped per chunk. |
| FileText.Parse | text_main.c:47-67 | A loaded buffer satisfies the line and row bounds. |
| FileText.Serialise | text_main.c:77-79 | A save writes at least one character per line. It writes nothing exactly when the buffer is empty. A non-empty buffer's text ends in a newline. |
| FileText.SaveLoadRoundTrip | text_main.c:54-79 | Saving, then loading the file, gives the same lines back. This holds when there are at most 51 lines, each of at most 98 characters, so a line and its newline fit in one read. |
| FileText.LoadSaveRoundTrip | text_main.c:54-79 | Loading, then saving, reproduces the file. This holds for a file of at most 51 lines of at most 98 characters each; a final line without a newline gains one. |
| FileText.LoadIsSplit | text_main.c:54-63 | On such a file the load finds exactly the lines a reader sees, one per newline, plus any final fragment. |
| FileText.SerialiseSplit | text_main.c:77-79 | Writing the lines a reader sees reproduces the text, plus a newline if it lacked a final one. |
| FileText.MultiByteLineExample | text_main.c:55-62 | Sixty two-byte UTF-8 characters, 120 bytes with no newline, load as a 99-byte line that ends inside a character, then a 21-byte line. |
| FileText.LongLineIsSplit | text_main.c:55-62 | A line of 99 or more characters is not truncated. Its first 99 characters become one buffer line and loading continues with the rest. |
| FileText.LoadKeepsCharacters | text_main.c:54-63 | A load that ends below capacity keeps every character of the file except the newlines, in order. |
| FileText.LoadKeepsFirstLines | text_main.c:54-63 | On a file whose lines have at most 98 characters, the load keeps the lines a reader sees, in order, up to the free rows, and drops the rest. |
| FileText.LoadIsTextPrefix | text_main.c:54-63 | Whatever a load keeps, run together, is a prefix of the file's characters with the newlines left out. A full buffer cuts the file short but never changes or reorders it. |
| Editing.InsertChar | text_main.c:211-220 | Typing at (r, c) makes line r equal to the old `line[..c]`, then the character, then the old `line[c..]`. The cursor moves to (r, c + 1) and no other line changes. Typing into an empty buffer makes the character its one line. If the guard refuses, nothing changes. The invariant is kept. |
| Editing.DeleteBefore | text_main.c:124-146 | For c > 0, the character at c - 1 is removed and the cursor moves to (r, c - 1). At column 0 with r > 0, when the two lines together are shorter than MAX_COLS, line r is appended to line r - 1. Later lines then move up and the cursor goes to (r - 1, old length of line r - 1). In every other case nothing changes, and only then. |
| Editing.SplitLine | text_main.c:191-209 | With a free row, line r becomes `line[..c]` and a new line r + 1 holds `line[c..]`. Later lines move down one and the cursor goes to (r + 1, 0). On an empty buffer this gives two empty lines with the cursor on the second. With no free row nothing changes. |
| Editing.MoveUp | text_main.c:162-169 | Moves to row r - 1 at column min(c, length of the line above); at row 0 it does nothing. No line changes. |
| Editing.MoveDown | text_main.c:148-160 | Moves to row r + 1 at column min(c, length of the line below). On the last line with a free row, it appends an empty line and moves onto it at column 0. With no free row it does nothing. |
| Editing.MoveLeft | text_main.c:171-177 | Moves one column left. At column 0 it moves to the end of the previous line, and at the origin it does nothing. No line changes. |
| Editing.MoveRight | text_main.c:179-185 | Moves one column right. At the end of a line it moves to the start of the next. It does nothing exactly at the end of the document. No line changes. |
| Editing.Step | text_main.c:115-224 | A keystroke keeps the invariant. Command mode is entered exactly on Escape. A file is written exactly on Ctrl-X. The text written is every line followed by a newline, and it loads back as the buffer unless some line is full. Save and Escape change neither the lines nor the cursor. Up, Left and Right change no line. |
| Editing.SaveReloads | text_main.c:54-79 | A buffer that is written out loads back as itself unless one of its lines has 99 characters. |
| Editing.Open | text_main.c:47-67 | After loading, the buffer is the parsed file and the cursor is at the end of the last loaded line. An empty file gives an empty buffer with the cursor at the origin. |
| CommandPrompt.Decide | text_main.c:96-109 | "q" means quit, "b" means resume, and anything else means prompt again. |
| CommandPrompt.Submit | text_main.c:87-111 | A command never changes the buffer or the saved cursor. The program exits exactly on "q". Editing resumes exactly on "b"; otherwise the prompt stays open. |
| CommandPrompt.Handle | text_main.c:115-122 | An input keeps the invariant. Only "q" at the prompt exits, and only Ctrl-X while editing writes the file. Nothing typed at the prompt changes the buffer. |
| CommandPrompt.EscapeThenResume | text_main.c:103-122 | Escape followed by "b" leaves the editor exactly as it was. |
| CommandPrompt.RepromptThenResume | text_main.c:96-109 | An unknown command keeps the prompt open with nothing changed, and "b" then resumes where Escape was pressed. |
| TextView.View | text_main.c:77-79 | The cursor is a position strictly inside the saved text, which is on its final newline at the latest. An empty buffer is the empty text at 0. |
| EditProperties.InsertIsTextInsert | text_main.c:211-220 | Typing a character inserts it into the saved text at the cursor's position, and the cursor moves past it. An empty buffer counts as one empty line. |
| EditProperties.InsertIntoEmptyText | text_main.c:211-220 | Typing `x` into an empty buffer gives the text "x\n" with the cursor after the `x`. |
| EditProperties.BackspaceIsTextDelete | text_main.c:124-146 | A backspace that does anything deletes the character just before the cursor's position from the saved text. At the start of a line, that character is the newline that ends the previous line. |
| EditProperties.DeleteInLineIsTextDelete | text_main.c:127-132 | Backspace inside a line deletes the preceding character of the saved text. |
| EditProperties.JoinIsTextDelete | text_main.c:133-144 | Backspace that joins two lines deletes the newline between them from the saved text. |
| EditProperties.EnterIsTextNewline | text_main.c:191-209 | Enter inserts a newline into the saved text at the cursor's position. On an empty buffer, counted as one empty line, it gives "\n\n" with the cursor after the first newline. |
| EditProperties.RightIsStepForward | text_main.c:179-185 | Arrow right, when it moves, advances one character in the saved text, newlines included. |
| EditProperties.LeftIsStepBackward | text_main.c:171-177 | Arrow left, when it moves, goes back one character in the saved text, newlines included. |
| EditProperties.AtStartIsOrigin | text_main.c:171-177 | The position is 0 exactly at row 0, column 0. |
| EditProperties.AtEndIsTextEnd | text_main.c:179-185 | Arrow right has nowhere to go exactly when the position is on the final newline of the saved text, or the text is empty. |
| EditProperties.DownAppendIsTextNewline | text_main.c:154-158 | Arrow down from the last line appends one newline to the saved text and moves the cursor after the old text. |
| EditProperties.SplitThenJoin | text_main.c:133-209 | Enter followed by Backspace restores the lines and the cursor. The join always fits, because both halves came from one line. On an empty buffer, what remains is its one empty line. |
| EditProperties.InsertThenDelete | text_main.c:127-220 | Typing a character followed by Backspace restores the lines and the cursor. On an empty buffer, what remains is its one empty line. |
| EditProperties.UpThenDown | text_main.c:148-169 | Up followed by Down returns to the same place when the column exists on the line above. |
| EditProperties.DownThenUp | text_main.c:148-169 | Down followed by Up returns to the same place when the column exists on the line below. |
| EditProperties.RightThenLeft | text_main.c:171-185 | Right followed by Left returns to the same place unless Right could not move. |
| EditProperties.LeftThenRight | text_main.c:171-185 | Left followed by Right returns to the same place unless Left could not move. |
| EditProperties.TypingInserts | text_main.c:211-220 | Typing a run of characters that fits on the line puts exactly them, in order, at the cursor. The cursor moves past them and no other line changes. |
| EditProperties.TypingIntoEmpty | text_main.c:211-220 | Typing 1 to 99 characters into an empty buffer makes them its one line, with the cursor after them. |
| EditProperties.JoinExample | text_main.c:133-144 | Backspace at the start of "de" in ["abc", "de", "f"] gives ["abcde", "f"] with the cursor after "abc". |
| AsWritten.LastRowIndex | text_main.c:149-182 | `num_lines - 1` is computed as a 64-bit `size_t`, so it is 2^64 - 1 for an empty buffer. |
| AsWritten.InsertAsWritten | text_main.c:211-220 | The insert guard tests only the column and row capacities. Within them the cursor always advances. |
| AsWritten.InsertAsWrittenDiffers | text_main.c:211-220 | The source's insert differs from the guarded one exactly on an empty buffer, or on a full 99-character line. |
| AsWritten.InsertOverflowExample | text_main.c:211-220 | Typing at the start of a 99-character line makes it 100 characters long. |
| AsWritten.InsertIntoEmptyExample | text_main.c:211-220 | Typing into an empty buffer moves the cursor past a character that no line holds, and a save writes nothing. The guarded engine makes the character the buffer's first line. |
| AsWritten.DownAsWritten | text_main.c:148-160 | Arrow down with the `size_t` last-row test leaves the lines unchanged or appends one empty line. |
| AsWritten.DownAsWrittenDiffers | text_main.c:148-160 | The source's arrow down differs from the guarded one exactly on an empty buffer. |
| AsWritten.DownFromEmptyExample | text_main.c:149-152 | Arrow down on an empty buffer puts the cursor on row 1 of a buffer with no lines. |
| AsWritten.RightAsWritten | text_main.c:179-185 | Arrow right with the `size_t` last-row test changes no line. |
| AsWritten.RightAsWrittenDiffers | text_main.c:179-185 | The source's arrow right differs from the guarded one exactly on an empty buffer. |
| AsWritten.RightFromEmptyExample | text_main.c:182-184 | Arrow right on an empty buffer puts the cursor on row 1 of a buffer with no lines. |
| AsWritten.SplitAsWritten | text_main.c:191-209 | Enter tests only the row capacity. At capacity nothing changes. |
| AsWritten.SplitAsWrittenDiffers | text_main.c:191-209 | The source's Enter differs from the guarded one exactly on an empty buffer. |
| AsWritten.SplitOnEmptyExample | text_main.c:191-209 | Enter on an empty buffer leaves the cursor on row 1 of a one-line buffer. The guarded engine makes two empty lines and puts the cursor on the second. |
| AsWritten.ReadsAsWritten | text_main.c:55 | The loop as written can fill storage row MAX_ROWS, one past the last row, but no further. |
| AsWritten.ReadsAsWrittenVersusLoad | text_main.c:55 | Up to the write over the line count, the loop as written reads either as many chunks as the guarded load keeps, or exactly one more. The extra read happens only when the guarded load stopped at capacity. |
| AsWritten.OverfullLoadExample | text_main.c:55 | A file of 52 empty lines makes the loop as written fill storage row 51 of a 51-row buffer. The guarded load keeps at most 51 lines. |
| AsWritten.SaveCursorAsWritten | text_main.c:82 | After a save, the message printed at row MAX_ROWS + 1 leaves the cursor at (52, 24) when the window has that row. In a shorter window the print fails and the cursor stays. The lines never change. |
| AsWritten.SaveAsWrittenDiffers | text_main.c:82 | The source's save moves the cursor away from where the guarded save leaves it exactly when the window has more than MAX_ROWS + 1 rows. |
| AsWritten.SaveKeepsBackspaceInStorage | text_main.c:124-142 | After the guarded save, a Backspace only indexes rows of the 51-row line array. |
| AsWritten.SaveThenBackspaceExample | text_main.c:82 | Saving ["abc"] in a 53-row window moves the cursor to (52, 24), off the buffer. A Backspace there would shift characters inside row 52 of a 51-row array. The guarded save keeps the cursor at (0, 3). |

## Left out

- The ncurses calls are left out: drawing, `move`, `clrtoeol`, `refresh`, `echo`/`noecho`, `raw`, `initscr` and `endwin`. The cursor the source reads back with `getyx` is explicit state instead.
- The window is taken to have at least MAX_ROWS rows and MAX_COLS columns, so that every `move` to a buffer position succeeds. In a smaller window, ncurses refuses a move outside it and the cursor stays where it was:
  - Enter or arrow down on the last screen row still splits or appends a line (text_main.c:150-158, 192-207), but the cursor does not follow. `Editing.SplitLine` and `Editing.MoveDown` move it.
  - Arrow right at the end of the last screen row stays put (text_main.c:183). `Editing.MoveRight` moves to the next line.
  - After loading a file longer than the window, the cursor ends on the last printed screen row (text_main.c:61). `Editing.Open` puts it on the last loaded line.
- The model takes a screen column to equal the character index. A tab or control character is drawn wider, and then `getyx` reports something else.
- File handles are left out (`fopen`, `fgets`, `fprintf`, `fclose`). Load and save are the pure conversions `Parse` and `Serialise`.
  - A failure to open the file on load (text_main.c:49-51) is the empty text, so the editor starts with an empty buffer.
  - A failure to open the file on save (text_main.c:72-74) is not modelled: `WriteFile` is the request to write.
  - The error messages printed in both cases are not modelled.
- `read_bytes` (text_main.c:23-44) is never called, and it is only `fseek`/`fread` I/O.
- `main` (text_main.c:227-252) is argument checking, terminal setup and the endless input loop. Process exit is the `Exit` effect.
- C string details are left out:
  - NUL terminators and the mechanics of `memmove`, `strcat` and `strncpy`.
  - A NUL typed with Ctrl-@ is an ordinary character here. In the source, a later `strcat` or a save stops at it.
- FileText.Parse: the file's text is taken as its bytes, one `char` per byte, and `Buffer.LineFits` bounds a line in those units. The `string` type does not enforce this. A `char` above 255 stands for no byte the source can read, and the model's counts are wrong for it. A file holding multi-byte UTF-8 characters must be given as its byte sequence: 60 two-byte characters are then 120 `char`s, which load as a 99-byte line and a 21-byte line, as `fgets` reads them (`FileText.MultiByteLineExample`).
- Keys.Decode: a `KEY_*` code other than the arrows and backspace is truncated to a `char` in the default branch. It is not modelled: `Press` names only the keys the dispatch handles, and bytes.
- Handling of the prompt's input is left out. `getstr` reads into a 20-byte array with no length bound, so a longer command overflows it. The model takes the command as a string of any length.
- AsWritten.ReadsAsWritten: the 52nd chunk lands past the end of the row array, overwriting the line count. The model counts the rows filled, not what that write then does to the count.
- AsWritten.ReadsAsWrittenVersusLoad: the comparison stops at the 52nd chunk. That chunk's bytes become `num_lines`, and a chunk that reads as a count below 51 lets the loop carry on: an empty line makes the count 10. The source then goes on reading into rows 11 and up, over lines it already loaded. The model does not follow the loop past the overwrite.
- Editing.Step: an effect is a request; whether the write succeeds is outside the model.
- Editing.Step: a save keeps the cursor where it was. In the source, the success message printed at row MAX_ROWS + 1 (text_main.c:82) moves the cursor to (52, 24) when the window has more than MAX_ROWS + 1 rows. That behaviour is `AsWritten.SaveCursorAsWritten`, and it is listed under Findings.

## Findings

| source | as written | input that shows it | evidently intended | confidence | as-written member | corrected member |
|---|---|---|---|---|---|---|
| text_main.c:212 | The insert guard is `cur_curse_x < MAX_COLS - 1 && cur_curse_y < MAX_ROWS`. It never checks the line's length. | Type any character at column 0 of a line of 99 characters. The line becomes 100 characters long in a 100-byte array, so its terminator lands past the array. | Refuse to insert into a full line. | not executed | AsWritten.InsertOverflowExample | Editing.InsertChar |
| text_main.c:149 | On an empty buffer, `cur_curse_y < buffer.num_lines - 1` compares with the `size_t` value 2^64 - 1. | Arrow down right after loading an empty file. The cursor goes to row 1 of a buffer with no lines. | Treat the empty buffer as being on its last line, and append its first line. | not executed | AsWritten.DownFromEmptyExample | Editing.MoveDown |
| text_main.c:182 | The same `size_t` wrap-around in arrow right's last-row test. | Arrow right just after loading an empty file. The cursor goes to row 1 of a buffer with no lines. | Stay put at the end of an empty document. | not executed | AsWritten.RightFromEmptyExample | Editing.MoveRight |
| text_main.c:192-207 | Enter tests only `num_lines < MAX_ROWS`, and then moves to `cur_curse_y + 1`. | Enter right after loading an empty file. The buffer gets one line, but the cursor is on row 1. | Treat the empty buffer as one empty line, and split it into two with the cursor on the second. | not executed | AsWritten.SplitOnEmptyExample | Editing.SplitLine |
| text_main.c:212-218 | On an empty buffer, the insert writes into storage row 0, which the line count (0) does not include. | Type `b` right after loading an empty file. The cursor moves to column 1, but no line holds the `b`, and a save writes an empty file. | Treat the empty buffer as one empty line, so the character becomes its first line. | not executed | AsWritten.InsertIntoEmptyExample | Editing.InsertChar |
| text_main.c:55 | `fgets` into `buffer.lines[buffer.num_lines]` runs before `buffer.num_lines < MAX_ROWS` is tested. | Load a file of 52 empty lines. The 52nd read goes to row 51 of a 51-row array, which is where `num_lines` is stored. Its "\n" sets the count to 10, and loading resumes at row 11, over lines already loaded. | Test the capacity before reading. | not executed | AsWritten.OverfullLoadExample | FileText.LoadFrom |
| text_main.c:82 | After a save, `mvprintw(MAX_ROWS + 1, 0, "File saved successfully.")` leaves the terminal cursor at the end of the message, and the next keystroke reads it back with `getyx` as the editing position. | In a window of 53 or more rows, save ["abc"] and press Backspace. The cursor is at (52, 24), and the memmove works on `buffer.lines[52]` of a 51-row array. | Put the cursor back where it was before printing the message. | not executed | AsWritten.SaveThenBackspaceExample | Editing.Step |

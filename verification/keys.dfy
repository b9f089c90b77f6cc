/** The keystrokes the editor distinguishes, and how a code read from the
    terminal is classified into one of them. */
module Keys {

  /** A single-byte key code. */
  type Byte = b: int | 0 <= b < 256

  /** A character the inserting branch of the dispatch can see: a single byte
      that none of the other cases claims (newline 10, Ctrl-X 24, escape 27,
      delete 127). */
  type TextChar = c: char | c as int < 256 && c != '\n' && c as int != 24 && c as int != 27 && c as int != 127
    witness 'a'

  /** What the terminal hands over for one keystroke: a byte, or one of its named
      keys (arrows, and the platform's own backspace code). */
  datatype Press = Ascii(code: Byte) | KeyUp | KeyDown | KeyLeft | KeyRight | KeyBackspace

  /** A keystroke as the edit engine sees it. */
  datatype Key = Char(ch: TextChar) | Backspace | Enter | Up | Down | Left | Right | Save | Escape

  /** The dispatch of a key code onto the engine's cases. */
  function Decode(p: Press): (k: Key)
    ensures k.Char? <==> p.Ascii? && p.code != 10 && p.code != 24 && p.code != 27 && p.code != 127
    ensures k.Char? ==> k.ch as int == p.code
    ensures k == Backspace <==> p == KeyBackspace || p == Ascii(127)
    ensures k == Escape <==> p == Ascii(27)
    ensures k == Save <==> p == Ascii(24)
    ensures k == Enter <==> p == Ascii(10)
    ensures k == Up <==> p == KeyUp
    ensures k == Down <==> p == KeyDown
    ensures k == Left <==> p == KeyLeft
    ensures k == Right <==> p == KeyRight
  {
    match p
    case KeyUp => Up
    case KeyDown => Down
    case KeyLeft => Left
    case KeyRight => Right
    case KeyBackspace => Backspace
    case Ascii(b) =>
      if b == 27 then Escape
      else if b == 127 then Backspace
      else if b == 24 then Save
      else if b == 10 then Enter
      else Char(b as char)
  }

  /** One code that produces each key: a byte where there is one. */
  function Encode(k: Key): Press {
    match k
    case Char(c) => Ascii(c as int)
    case Backspace => Ascii(127)
    case Enter => Ascii(10)
    case Up => KeyUp
    case Down => KeyDown
    case Left => KeyLeft
    case Right => KeyRight
    case Save => Ascii(24)
    case Escape => Ascii(27)
  }

  /** Every key can be typed. */
  lemma {:induction false} DecodeEncode(k: Key)
    ensures Decode(Encode(k)) == k
  {
  }

  /** Decoding loses nothing but the choice between the two backspace codes. */
  lemma {:induction false} EncodeDecode(p: Press)
    requires p != KeyBackspace
    ensures Encode(Decode(p)) == p
  {
  }
}

/**
 * The terminal-facing types the app is written against: input events
 * (termion's event kinds, with keys reduced to Escape, a character and one
 * catch-all) and the UI the view produces.
 */
module Tui {

  /** A key: Escape, a printable character, or any other key (arrows, Backspace, Alt/Ctrl chords, ...). */
  datatype Key = Esc | Char(c: char) | OtherKey

  /** An input event: a key press, a mouse event, or an unsupported escape sequence. */
  datatype Event = KeyEvent(key: Key) | MouseEvent | Unsupported

  /** What the view asks the terminal to render. */
  datatype UI = Content(text: string)
}

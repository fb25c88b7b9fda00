/**
 Key events as the terminal library delivers them: a key code and the
 modifier keys held down with it. Both the ex bar and the key map read them.
 */
module Keys {

  /** The modifier flags a key event can carry, one bit per modifier key. */
  datatype Modifiers = Modifiers(shift: bool, control: bool, alt: bool)

  /** No modifier held. */
  const NoModifiers := Modifiers(false, false, false)

  type Byte = x: int | 0 <= x < 0x100

  /** The key codes of the terminal library. */
  datatype KeyCode =
    | Backspace
    | Enter
    | Left
    | Right
    | Up
    | Down
    | Home
    | End
    | PageUp
    | PageDown
    | Tab
    | BackTab
    | Delete
    | Insert
    | F(number: Byte)
    | Char(c: char)
    | Null
    | Esc

  datatype KeyEvent = KeyEvent(code: KeyCode, modifiers: Modifiers)

  /** A key pressed with no modifier held. */
  function Plain(code: KeyCode): KeyEvent {
    KeyEvent(code, NoModifiers)
  }

  /** A key pressed with Control held. */
  function Ctrl(code: KeyCode): KeyEvent {
    KeyEvent(code, Modifiers(false, true, false))
  }
}

/** Key events delivered by the input decoder. */
module Keys {

  /** The special keys; `KeyChar` carries a rune. */
  datatype Key =
    | KeyNull | KeyEnter | KeyBackspace | KeyTab | KeyEsc | KeySpace
    | KeyArrowUp | KeyArrowDown | KeyArrowRight | KeyArrowLeft
    | KeyHome | KeyEnd | KeyPgUp | KeyPgDown | KeyDelete | KeyInsert
    | KeyF1 | KeyF2 | KeyF3 | KeyF4 | KeyF5 | KeyF6
    | KeyF7 | KeyF8 | KeyF9 | KeyF10 | KeyF11 | KeyF12
    | KeyChar

  /** Modifier bit set: Ctrl = 1, Alt = 2, Shift = 4. */
  type Mod = int
  const ModNone: Mod := 0
  const ModCtrl: Mod := 1
  const ModAlt: Mod := 2
  const ModShift: Mod := 4

  /** A decoded key press; `rune` is 0 for special keys. */
  datatype KeyEvent = KeyEvent(key: Key, rune: int, mod: Mod)

  function Special(k: Key): KeyEvent {
    KeyEvent(k, 0, ModNone)
  }
}

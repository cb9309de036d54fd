/** What several parts of the kernel share: optional values and the codes of special keys. */
module Common {

  datatype Option<+T> = None | Some(value: T)

  // Key codes above the 7-bit characters (`drivers/kbd_driver.h`).
  const ARROW_UP: int := 1000
  const ARROW_DOWN: int := 1001
  const ARROW_LEFT: int := 1002
  const ARROW_RIGHT: int := 1003
  const KEY_HOME: int := 1004
  const KEY_END: int := 1005
  const KEY_PAGE_UP: int := 1006
  const KEY_PAGE_DOWN: int := 1007
  const KEY_DEL: int := 1008
}

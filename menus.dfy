/**
 * What the menus of the C++ game share: the options every Menu-derived
 * class selects from, the key codes they react to and the padding the
 * window-size requirement is built from.
 */
module Menus {
  import Misc

  /** The options enum shared by all menus. */
  datatype Options = NewGame | ResumeGame | ShowStats | Exit | Rules | Manual | SaveGame | SaveReady | NoSaves | None

  /** The smaller and the larger of two lines, where the ++ and -- operators saturate. */
  function Min(a: int, b: int): int
  {
    if a < b then a else b
  }

  function Max(a: int, b: int): int
  {
    if a < b then b else a
  }

  /** The four options the main menu displays. */
  predicate IsMainOption(opt: Options)
  {
    opt in {NewGame, ResumeGame, ShowStats, Exit}
  }

  /** ncurses' codes for the arrow keys (0402 and 0403). */
  const KeyDown := 258
  const KeyUp := 259

  /** The uint16_t a menu stores getch's int result in: the value modulo 2^16 (ERR, -1, becomes 65535). */
  function Uint16(code: int): (input: int)
    ensures 0 <= input < 0x1_0000
    ensures 0 <= code < 0x1_0000 ==> input == code
    ensures input == code - 0x1_0000 * (code / 0x1_0000)
  {
    code % 0x1_0000
  }

  /** The uint8_t sum of two uint8_t values: the value modulo 2^8. */
  function Uint8(n: int): (m: Misc.u8)
    ensures 0 <= n < 0x100 ==> m == n
  {
    n % 0x100
  }

  /** Padding and puzzle-size constants of Menu. */
  const TopPadding := Misc.OriginY
  const LeftPadding := Misc.OriginX
  const PuzzleSpace := 29
  const DefaultVerticalDivider := 4
  const DefaultInGameMenuDisplaySpacing := 80
}

/** Values shared across the game: difficulty levels and display constants. */
module Misc {
  /** uint8_t / u8. */
  type u8 = x: int | 0 <= x < 256

  /** uint8_t value of the Enter key as the game redefines it. */
  const KeyEnter := 10
  const OriginY := 3
  const OriginX := 6
  const DisplayMatrixRows := 27
  const DisplayMatrixColumns := 27

  /**
   * difficulty_level: the enum value of a level is the number of cells
   * revealed when a new game starts.
   */
  datatype Difficulty = Easy | Medium | Hard | Expert

  function Clues(d: Difficulty): (n: int)
    ensures 17 <= n <= 60
  {
    match d
    case Easy => 60
    case Medium => 45
    case Hard => 30
    case Expert => 17
  }

  /** The levels get harder in declaration order: fewer and fewer clues. */
  lemma CluesDecrease()
    ensures Clues(Easy) > Clues(Medium) > Clues(Hard) > Clues(Expert)
  {
  }
}

/**
 * Index arithmetic of the Sudoku grid (Grid::map_row, map_column, map_box,
 * get_row_index, get_column_index, get_box_index).
 *
 * A position is an integer in [0, 81), numbered row-major.  Every position
 * belongs to one row, one column and one 3x3 box; the *_index functions give
 * the slot of the position inside that row, column or box container.
 */
module Positions {
  const GridSize := 81
  const ContainerSize := 9

  /** The row that holds position `pos` (Grid::map_row). */
  function MapRow(pos: int): (row: int)
    ensures 0 <= pos < GridSize ==> 0 <= row < 9
    ensures 9 * row <= pos < 9 * row + 9
  {
    pos / ContainerSize
  }

  /** The column that holds position `pos` (Grid::map_column). */
  function MapColumn(pos: int): (column: int)
    ensures 0 <= column < 9
    ensures pos == 9 * MapRow(pos) + column
  {
    pos % ContainerSize
  }

  /**
   * The box that holds the cell (row, column) (Grid::map_box).  The source
   * decides with nested comparisons against 3 and 6; the result is the usual
   * box number 3 * (row / 3) + column / 3 for every cell of the board.
   */
  function MapBox(row: int, column: int): (box: int)
    requires 0 <= row && 0 <= column
    ensures 0 <= box < 9
    ensures row < 9 && column < 9 ==> box == 3 * (row / 3) + column / 3
  {
    if row < 3 then
      (if column < 3 then 0 else if column < 6 then 1 else 2)
    else if row < 6 then
      (if column < 3 then 3 else if column < 6 then 4 else 5)
    else
      (if column < 3 then 6 else if column < 6 then 7 else 8)
  }

  /** Slot of `pos` inside its row container: its column (Grid::get_row_index). */
  function GetRowIndex(pos: int): (slot: int)
    ensures 0 <= slot < 9 && slot == MapColumn(pos)
  {
    pos % ContainerSize
  }

  /** Slot of `pos` inside its column container: its row (Grid::get_column_index). */
  function GetColumnIndex(pos: int): (slot: int)
    ensures 0 <= pos < GridSize ==> 0 <= slot < 9
    ensures slot == MapRow(pos)
  {
    pos / ContainerSize
  }

  /**
   * Slot of `pos` inside its box container (Grid::get_box_index).  The source
   * names the two intermediate values the other way round (its ROW is the
   * column and its COLUMN the row), so the slot is 3 * (row % 3) + column % 3.
   */
  function GetBoxIndex(pos: int): (slot: int)
    ensures 0 <= slot < 9
    ensures slot == 3 * (MapRow(pos) % 3) + MapColumn(pos) % 3
  {
    var rowSlot := GetRowIndex(pos);
    var columnSlot := GetColumnIndex(pos);
    3 * (columnSlot % 3) + rowSlot % 3
  }

  /** The box of a position, as Grid::set_value computes it. */
  function BoxOf(pos: int): int
    requires 0 <= pos
  {
    MapBox(MapRow(pos), MapColumn(pos))
  }

  /**
   * The position of slot `slot` of box `box`: the formula Grid::solve uses to
   * enumerate the nine cells of a box in raster order.
   */
  function BoxCell(box: int, slot: int): int
  {
    27 * (box / 3) + 3 * (box % 3) + ContainerSize * (slot / 3) + slot % 3
  }

  /** Every index function sends a position of the board into [0, 9). */
  lemma IndexBounds(pos: int)
    requires 0 <= pos < GridSize
    ensures 0 <= MapRow(pos) < 9 && 0 <= MapColumn(pos) < 9
    ensures 0 <= GetRowIndex(pos) < 9 && 0 <= GetColumnIndex(pos) < 9
    ensures 0 <= BoxOf(pos) < 9 && 0 <= GetBoxIndex(pos) < 9
    ensures MapRow(pos) == GetColumnIndex(pos) && MapColumn(pos) == GetRowIndex(pos)
  {
  }

  /** A position is determined by its row and column. */
  lemma RowColumnDetermine(pos: int)
    requires 0 <= pos < GridSize
    ensures pos == 9 * MapRow(pos) + MapColumn(pos)
  {
  }

  /** Raster order: later slots of a box are later positions. */
  lemma BoxCellIncreasing(box: int, i: int, j: int)
    requires 0 <= i < j <= 9
    ensures BoxCell(box, i) < BoxCell(box, j)
  {
  }

  /** BoxCell enumerates exactly the cells of the given box, slot by slot. */
  lemma {:induction false} BoxCellInverse(box: int, slot: int)
    requires 0 <= box < 9 && 0 <= slot < 9
    ensures 0 <= BoxCell(box, slot) < GridSize
    ensures BoxOf(BoxCell(box, slot)) == box
    ensures GetBoxIndex(BoxCell(box, slot)) == slot
  {
    var p := BoxCell(box, slot);
    var r := 3 * (box / 3) + slot / 3;
    var c := 3 * (box % 3) + slot % 3;
    assert 0 <= r < 9 && 0 <= c < 9;
    assert p == 9 * r + c;
    DivModOfCell(r, c);
    assert r / 3 == box / 3 && c / 3 == box % 3;
    assert r % 3 == slot / 3 && c % 3 == slot % 3;
  }

  /** Row and column of the cell 9 * r + c. */
  lemma DivModOfCell(r: int, c: int)
    requires 0 <= r < 9 && 0 <= c < 9
    ensures (9 * r + c) / 9 == r && (9 * r + c) % 9 == c
  {
  }

  /** Every position is the BoxCell of its own box and box slot. */
  lemma {:induction false} BoxCellOfPosition(pos: int)
    requires 0 <= pos < GridSize
    ensures BoxCell(BoxOf(pos), GetBoxIndex(pos)) == pos
  {
    var r, c := pos / 9, pos % 9;
    assert pos == 9 * r + c;
    var b, s := BoxOf(pos), GetBoxIndex(pos);
    assert b == 3 * (r / 3) + c / 3;
    assert s == 3 * (r % 3) + c % 3;
    assert b / 3 == r / 3 && b % 3 == c / 3;
    assert s / 3 == r % 3 && s % 3 == c % 3;
  }

  /**
   * Box slots never collide: two different positions differ in their box or
   * in their slot inside the box.  Together with BoxCellInverse this makes
   * pos |-> (box, slot) a bijection from [0, 81) onto [0, 9) x [0, 9).
   */
  lemma {:induction false} BoxSlotInjective(p: int, q: int)
    requires 0 <= p < GridSize && 0 <= q < GridSize
    requires BoxOf(p) == BoxOf(q) && GetBoxIndex(p) == GetBoxIndex(q)
    ensures p == q
  {
    BoxCellOfPosition(p);
    BoxCellOfPosition(q);
  }

  /** Rows and their slots never collide either. */
  lemma RowSlotInjective(p: int, q: int)
    requires 0 <= p < GridSize && 0 <= q < GridSize
    requires MapRow(p) == MapRow(q) && GetRowIndex(p) == GetRowIndex(q)
    ensures p == q
  {
  }
}

/**
 * The live game of the Rust version (the sudoku module): the grid-to-display
 * maps create_maps builds with u8 counters and a HashMap, and the state
 * Sudoku::new starts from.
 */
module SudokuGame {
  import Misc
  import Displays
  import opened Terminal

  /** GRID_SIZE, a u8 in the source. */
  const GridSize: u8 := 81

  /** The display cell of grid position pos, as a terminal Cell. */
  function CellOf(pos: int): (cell: Cell)
    requires 0 <= pos < 81
    ensures (cell.row as int, cell.col as int) == Displays.DisplayOf(pos)
  {
    Displays.DisplayInBounds(pos);
    Cell(1 + 3 * (pos / 9), 1 + 3 * (pos % 9))
  }

  /** grid2display over the first n positions. */
  function GridToDisplayUpto(n: int): map<u8, Cell>
    requires 0 <= n <= 81
  {
    map pos: u8 | pos < n :: CellOf(pos)
  }

  /** display2grid over the first n positions. */
  function DisplayToGridUpto(n: int): map<Cell, u8>
    requires 0 <= n <= 81
  {
    map pos | 0 <= pos < n :: CellOf(pos) := pos as u8
  }

  /** Distinct positions have distinct cells. */
  lemma CellOfInjective(p: int, q: int)
    requires 0 <= p < 81 && 0 <= q < 81 && CellOf(p) == CellOf(q)
    ensures p == q
  {
    Displays.DisplayInjective(p, q);
  }

  /** Inserting position n into grid2display extends it by one new entry. */
  lemma GrowGridToDisplay(n: int)
    requires 0 <= n < 81
    ensures n !in GridToDisplayUpto(n)
    ensures GridToDisplayUpto(n + 1) == GridToDisplayUpto(n)[n := CellOf(n)]
  {
  }

  /** Inserting the cell of position n into display2grid extends it by one new entry. */
  lemma GrowDisplayToGrid(n: int)
    requires 0 <= n < 81
    ensures CellOf(n) !in DisplayToGridUpto(n)
    ensures DisplayToGridUpto(n + 1) == DisplayToGridUpto(n)[CellOf(n) := n]
  {
    var d := CellOf(n);
    var m, m' := DisplayToGridUpto(n + 1), DisplayToGridUpto(n)[d := n];
    forall e | e in m ensures e in m' && m[e] == m'[e] {
      var q :| 0 <= q < n + 1 && CellOf(q) == e;
      if q < n && e == d {
        CellOfInjective(q, n);
      }
    }
    assert m == m';
  }

  /**
   * Sudoku::create_maps: the first loop inserts each position with the
   * display cell its u8 row and column counters reach (the column steps
   * by 3 and wraps to the next line group at DISPLAY_MATRIX_COLUMNS); the
   * second loop inserts, for each position, its cell as key and the
   * position as value.  The counters never leave u8 range, and every
   * lookup the second loop makes finds its key.
   */
  method CreateMaps() returns (grid2display: map<u8, Cell>, display2grid: map<Cell, u8>)
    ensures grid2display == GridToDisplayUpto(81)
    ensures display2grid == DisplayToGridUpto(81)
  {
    var row: u8, col: u8 := 1, 1;
    grid2display := map[];
    for i := 0 to GridSize
      invariant row as int == 1 + 3 * (i / 9) && col as int == 1 + 3 * (i % 9)
      invariant grid2display == GridToDisplayUpto(i)
    {
      assert Cell(row, col) == CellOf(i);
      GrowGridToDisplay(i);
      grid2display := grid2display[i := Cell(row, col)];
      col := col + 3;
      if col / Misc.DisplayMatrixColumns as u8 != 0 {
        col := col % Misc.DisplayMatrixColumns as u8;
        row := row + 3;
      }
      Displays.CounterStep(i, row as int, col as int);
    }
    display2grid := map[];
    for i := 0 to GridSize
      invariant display2grid == DisplayToGridUpto(i)
    {
      assert i in grid2display;
      var key, value := i, grid2display[i];
      GrowDisplayToGrid(i);
      display2grid := display2grid[value := key];
    }
  }

  /** Both maps over the first n positions have n entries. */
  lemma {:induction false} MapSizes(n: int)
    requires 0 <= n <= 81
    ensures |GridToDisplayUpto(n)| == n && |DisplayToGridUpto(n)| == n
  {
    if n > 0 {
      MapSizes(n - 1);
      GrowGridToDisplay(n - 1);
      GrowDisplayToGrid(n - 1);
    } else {
      assert GridToDisplayUpto(n) == map[];
      assert DisplayToGridUpto(n) == map[];
    }
  }

  /**
   * The two maps create_maps returns are mutual inverses with 81 entries
   * each: every position's cell leads back to it, and every key of
   * display2grid leads to a position whose cell it is.
   */
  lemma MapsInverse()
    ensures |GridToDisplayUpto(81)| == 81 && |DisplayToGridUpto(81)| == 81
    ensures forall pos: u8 | pos < 81 ::
      CellOf(pos) in DisplayToGridUpto(81) && DisplayToGridUpto(81)[CellOf(pos)] == pos
    ensures forall c | c in DisplayToGridUpto(81) ::
      DisplayToGridUpto(81)[c] in GridToDisplayUpto(81) && GridToDisplayUpto(81)[DisplayToGridUpto(81)[c]] == c
  {
    MapSizes(81);
    var m := DisplayToGridUpto(81);
    forall pos: u8 | pos < 81 ensures CellOf(pos) in m && m[CellOf(pos)] == pos {
      var q :| 0 <= q < 81 && CellOf(q) == CellOf(pos) && m[CellOf(pos)] == q as u8;
      CellOfInjective(q, pos);
    }
  }

  /** The state of a live Rust game that Sudoku::new sets; the Grid placeholder is left out. */
  datatype Sudoku = Sudoku(
    displayMatrix: seq<seq<u8>>,
    colorCodes: seq<seq<char>>,
    grid2displayMap: map<u8, Cell>,
    display2gridMap: map<Cell, u8>,
    origin: Cell,
    cursorPos: Cell,
    displayMatrixOffset: map<Cell, Cell>)

  /** A 27x27 matrix holding x everywhere. */
  function Filled<T>(x: T): (m: seq<seq<T>>)
    ensures |m| == Misc.DisplayMatrixRows
    ensures forall i | 0 <= i < |m| :: |m[i]| == Misc.DisplayMatrixColumns
    ensures forall i, j | 0 <= i < |m| && 0 <= j < |m[i]| :: m[i][j] == x
  {
    seq(Misc.DisplayMatrixRows, _ => seq(Misc.DisplayMatrixColumns, _ => x))
  }

  /**
   * Sudoku::new: an all-zero display matrix, all-blank colour codes, the
   * maps create_maps builds, the cursor at ORIGIN and an empty offset map.
   */
  method New() returns (game: Sudoku)
    ensures |game.displayMatrix| == Misc.DisplayMatrixRows && |game.colorCodes| == Misc.DisplayMatrixRows
    ensures forall i | 0 <= i < Misc.DisplayMatrixRows ::
      |game.displayMatrix[i]| == Misc.DisplayMatrixColumns && |game.colorCodes[i]| == Misc.DisplayMatrixColumns
    ensures forall i, j | 0 <= i < Misc.DisplayMatrixRows && 0 <= j < Misc.DisplayMatrixColumns ::
      game.displayMatrix[i][j] == 0 && game.colorCodes[i][j] == ' '
    ensures game.grid2displayMap == GridToDisplayUpto(81) && game.display2gridMap == DisplayToGridUpto(81)
    ensures game.origin == Origin && game.cursorPos == Origin
    ensures game.origin.Y() == Misc.OriginY && game.origin.X() == Misc.OriginX
    ensures game.displayMatrixOffset == map[]
  {
    var grid2display, display2grid := CreateMaps();
    game := Sudoku(Filled(0), Filled(' '), grid2display, display2grid, Origin, Origin, map[]);
  }
}

/**
 * The mapping between the 81 grid positions and the cells of the 27x27
 * display matrix (Sudoku::create_map), the read-back of a saved puzzle's
 * grid through that mapping, and the saved colour-code decoder.
 */
module Displays {
  import Misc

  /** A cell of the display matrix: (display line, display column). */
  type DisplayCell = (int, int)

  /** Where grid position pos is drawn: three display cells per grid cell. */
  function DisplayOf(pos: int): DisplayCell
  {
    (1 + 3 * (pos / 9), 1 + 3 * (pos % 9))
  }

  /** The grid position drawn at a display cell (meaningful on mapped cells only). */
  function GridOf(d: DisplayCell): int
  {
    9 * ((d.0 - 1) / 3) + (d.1 - 1) / 3
  }

  /** grid2display_map over the first n positions. */
  function GridToDisplayUpto(n: int): map<int, DisplayCell>
  {
    map pos | 0 <= pos < n :: DisplayOf(pos)
  }

  /** display2grid_map over the first n positions. */
  function DisplayToGridUpto(n: int): map<DisplayCell, int>
  {
    map pos | 0 <= pos < n :: DisplayOf(pos) := pos
  }

  /** grid2display_map as create_map leaves it. */
  function GridToDisplay(): map<int, DisplayCell>
  {
    GridToDisplayUpto(81)
  }

  /** display2grid_map as create_map leaves it. */
  function DisplayToGrid(): map<DisplayCell, int>
  {
    DisplayToGridUpto(81)
  }

  /** Every mapped cell lies inside the 27x27 display matrix on a line and column of the form 1 + 3k. */
  lemma DisplayInBounds(pos: int)
    requires 0 <= pos < 81
    ensures 0 < DisplayOf(pos).0 < Misc.DisplayMatrixRows && DisplayOf(pos).0 % 3 == 1
    ensures 0 < DisplayOf(pos).1 < Misc.DisplayMatrixColumns && DisplayOf(pos).1 % 3 == 1
  {
  }

  /** GridOf undoes DisplayOf. */
  lemma GridOfDisplay(pos: int)
    requires 0 <= pos < 81
    ensures GridOf(DisplayOf(pos)) == pos
  {
    var r, c := pos / 9, pos % 9;
    assert (DisplayOf(pos).0 - 1) / 3 == r;
    assert (DisplayOf(pos).1 - 1) / 3 == c;
  }

  /** DisplayOf undoes GridOf on every display cell of the form (1 + 3i, 1 + 3j), i, j < 9. */
  lemma DisplayOfGrid(d: DisplayCell)
    requires 0 <= d.0 < 27 && d.0 % 3 == 1 && 0 <= d.1 < 27 && d.1 % 3 == 1
    ensures 0 <= GridOf(d) < 81 && DisplayOf(GridOf(d)) == d
  {
    var i, j := (d.0 - 1) / 3, (d.1 - 1) / 3;
    assert d.0 == 1 + 3 * i && d.1 == 1 + 3 * j;
    assert GridOf(d) == 9 * i + j;
    assert (9 * i + j) / 9 == i && (9 * i + j) % 9 == j;
  }

  /** No two grid positions share a display cell. */
  lemma DisplayInjective(p: int, q: int)
    requires 0 <= p < 81 && 0 <= q < 81 && DisplayOf(p) == DisplayOf(q)
    ensures p == q
  {
    GridOfDisplay(p);
    GridOfDisplay(q);
  }

  /** Recording position n extends grid2display_map by one new entry. */
  lemma GrowGridToDisplay(n: int)
    requires 0 <= n < 81
    ensures n !in GridToDisplayUpto(n)
    ensures GridToDisplayUpto(n + 1) == GridToDisplayUpto(n)[n := DisplayOf(n)]
  {
  }

  /** Recording position n extends display2grid_map by one new entry. */
  lemma GrowDisplayToGrid(n: int)
    requires 0 <= n < 81
    ensures DisplayOf(n) !in DisplayToGridUpto(n)
    ensures DisplayToGridUpto(n + 1) == DisplayToGridUpto(n)[DisplayOf(n) := n]
  {
    var d := DisplayOf(n);
    var m, m' := DisplayToGridUpto(n + 1), DisplayToGridUpto(n)[d := n];
    forall e | e in m ensures e in m' && m[e] == m'[e] {
      var q :| 0 <= q < n + 1 && DisplayOf(q) == e;
      if q < n && e == d {
        DisplayInjective(q, n);
      }
    }
    assert m == m';
  }

  /** Recording position n extends both maps by one new entry each. */
  lemma GrowMaps(n: int)
    requires 0 <= n < 81
    ensures n !in GridToDisplayUpto(n) && DisplayOf(n) !in DisplayToGridUpto(n)
    ensures GridToDisplayUpto(n + 1) == GridToDisplayUpto(n)[n := DisplayOf(n)]
    ensures DisplayToGridUpto(n + 1) == DisplayToGridUpto(n)[DisplayOf(n) := n]
  {
    GrowGridToDisplay(n);
    GrowDisplayToGrid(n);
  }

  /** One pass of create_map on maps that held g0 and d0 before the walk. */
  lemma GrowUnions(g0: map<int, DisplayCell>, d0: map<DisplayCell, int>, n: int)
    requires 0 <= n < 81
    ensures (g0 + GridToDisplayUpto(n))[n := DisplayOf(n)] == g0 + GridToDisplayUpto(n + 1)
    ensures (d0 + DisplayToGridUpto(n))[DisplayOf(n) := n] == d0 + DisplayToGridUpto(n + 1)
  {
    GrowMaps(n);
    UpdateUnion(g0, GridToDisplayUpto(n), n, DisplayOf(n));
    UpdateUnion(d0, DisplayToGridUpto(n), DisplayOf(n), n);
  }

  /** Both maps over the first n positions have n entries. */
  lemma {:induction false} MapSizesUpto(n: int)
    requires 0 <= n <= 81
    ensures |GridToDisplayUpto(n)| == n && |DisplayToGridUpto(n)| == n
  {
    if n > 0 {
      MapSizesUpto(n - 1);
      GrowMaps(n - 1);
    } else {
      assert GridToDisplayUpto(n) == map[];
      assert DisplayToGridUpto(n) == map[];
    }
  }

  /**
   * The two maps are mutual inverses: display2grid_map sends the display
   * cell of every position back to it, grid2display_map sends each key of
   * display2grid_map back to it, and both maps have 81 entries.
   */
  lemma MapsInverse()
    ensures forall pos | 0 <= pos < 81 :: DisplayOf(pos) in DisplayToGrid() && DisplayToGrid()[DisplayOf(pos)] == pos
    ensures forall d | d in DisplayToGrid() :: 0 <= DisplayToGrid()[d] < 81 && GridToDisplay()[DisplayToGrid()[d]] == d
    ensures |GridToDisplay()| == 81 && |DisplayToGrid()| == 81
  {
    var m := DisplayToGrid();
    forall pos | 0 <= pos < 81 ensures DisplayOf(pos) in m && m[DisplayOf(pos)] == pos {
      var q :| 0 <= q < 81 && DisplayOf(q) == DisplayOf(pos) && m[DisplayOf(pos)] == q;
      DisplayInjective(q, pos);
    }
    MapSizesUpto(81);
  }

  /** Updating a union updates its right operand. */
  lemma UpdateUnion<K, V>(a: map<K, V>, b: map<K, V>, k: K, v: V)
    ensures (a + b)[k := v] == a + b[k := v]
  {
  }

  /** One step of create_map's counters moves them to the display cell of the next position. */
  lemma CounterStep(i: int, row: int, column: int)
    requires 0 <= i < 81
    requires column == 1 + 3 * (i % 9) + 3 - (if i % 9 == 8 then 27 else 0)
    requires row == 1 + 3 * (i / 9) + (if i % 9 == 8 then 3 else 0)
    ensures row == 1 + 3 * ((i + 1) / 9) && column == 1 + 3 * ((i + 1) % 9)
  {
  }

  /**
   * The maps a Sudoku object keeps between grid positions and display
   * cells; the display matrix and the terminal state are not part of this
   * model.
   */
  class Sudoku {
    var grid2displayMap: map<int, DisplayCell>
    var display2gridMap: map<DisplayCell, int>

    /** Both maps start empty, as the std::map members do. */
    constructor ()
      ensures grid2displayMap == map[] && display2gridMap == map[]
    {
      grid2displayMap := map[];
      display2gridMap := map[];
    }

    /**
     * Sudoku::create_map: walks the 81 positions with a display line and
     * column that start at 1 and step by 3, the column wrapping to the next
     * line group at 27, and records each pair in both maps.  The counters are
     * uint8_t; they never pass 28, so nothing wraps.
     */
    method CreateMap()
      modifies this
      ensures grid2displayMap == old(grid2displayMap) + GridToDisplay()
      ensures display2gridMap == old(display2gridMap) + DisplayToGrid()
    {
      ghost var g0, d0 := grid2displayMap, display2gridMap;
      var row, column := 1, 1;
      for i := 0 to 81
        invariant row == 1 + 3 * (i / 9) && column == 1 + 3 * (i % 9)
        invariant 0 <= row <= 28 && 0 <= column <= 25
        invariant grid2displayMap == g0 + GridToDisplayUpto(i)
        invariant display2gridMap == d0 + DisplayToGridUpto(i)
      {
        assert (row, column) == DisplayOf(i);
        GrowUnions(g0, d0, i);
        grid2displayMap := grid2displayMap[i := (row, column)];
        display2gridMap := display2gridMap[(row, column) := i];
        column := column + 3;
        if column / Misc.DisplayMatrixColumns != 0 {
          column := column % Misc.DisplayMatrixColumns;
          row := row + 3;
        }
        CounterStep(i, row, column);
      }
    }

    /**
     * The saved-game branch of init_display_matrix: grid[i][j] is the value
     * of the saved display matrix at the display cell of position 9i + j.
     */
    method SavedGrid(puzzle: seq<seq<int>>) returns (grid: array2<int>)
      requires |puzzle| == Misc.DisplayMatrixRows
      requires forall i | 0 <= i < |puzzle| :: |puzzle[i]| == Misc.DisplayMatrixColumns
      requires forall pos | 0 <= pos < 81 :: pos in grid2displayMap && grid2displayMap[pos] == DisplayOf(pos)
      ensures fresh(grid) && grid.Length0 == 9 && grid.Length1 == 9
      ensures forall i, j | 0 <= i < 9 && 0 <= j < 9 ::
        grid[i, j] == puzzle[DisplayOf(9 * i + j).0][DisplayOf(9 * i + j).1]
    {
      grid := new int[9, 9];
      for i := 0 to 9
        invariant forall a, b | 0 <= a < i && 0 <= b < 9 ::
          grid[a, b] == puzzle[DisplayOf(9 * a + b).0][DisplayOf(9 * a + b).1]
      {
        for j := 0 to 9
          invariant forall a, b | 0 <= a < i && 0 <= b < 9 ::
            grid[a, b] == puzzle[DisplayOf(9 * a + b).0][DisplayOf(9 * a + b).1]
          invariant forall b | 0 <= b < j :: grid[i, b] == puzzle[DisplayOf(9 * i + b).0][DisplayOf(9 * i + b).1]
        {
          DisplayInBounds(9 * i + j);
          var coords := grid2displayMap[9 * i + j];
          grid[i, j] := puzzle[coords.0][coords.1];
        }
      }
    }
  }

  /** The colors enum: colour-pair numbers of the display. */
  const Unknown := 1
  const Given := 2
  const CandidatesY := 3
  const CandidatesB := 4
  const Guess := 5
  const MenuSelection := 6

  /** color_code: the letter a saved game stores for each colour pair, indexed by pair number. */
  const ColorCode: seq<char> := ['n', 'u', 'r', 'y', 'b', 'g']

  /** The switch over a saved colour letter in init_display_matrix; 'n' and any other letter give 0. */
  function DecodeColour(ch: char): (pair: int)
    ensures 0 <= pair <= Guess
    ensures pair != 0 <==> ch in ColorCode[1..]
  {
    match ch
    case 'u' => Unknown
    case 'r' => Given
    case 'y' => CandidatesY
    case 'b' => CandidatesB
    case 'g' => Guess
    case _ => 0
  }

  /** Decoding inverts color_code for every pair number a saved game can store. */
  lemma DecodeInvertsColorCode(pair: int)
    requires 0 <= pair < |ColorCode|
    ensures DecodeColour(ColorCode[pair]) == pair
  {
  }
}

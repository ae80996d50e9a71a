/**
 * Grid: the 81 cells of a Sudoku board kept three times over, as nine Row,
 * nine Column and nine Box containers, together with the known_positions
 * flags, the puzzle generator (Bowman's Bingo backtracking) and the clue
 * reveal.
 */
module Grids {
  import opened Positions
  import opened Digits
  import opened Board
  import opened Containers
  import Misc

  /** The arrays behind a sequence of containers. */
  ghost function Arrays(cs: seq<Container>): set<array<char>>
  {
    set c | c in cs :: c.arr
  }

  /** Nine containers of nine slots. */
  ghost predicate Sized(cs: seq<Container>)
  {
    |cs| == 9 && forall i | 0 <= i < 9 :: cs[i].arr.Length == ContainerSize
  }

  /** No two containers share an array. */
  ghost predicate Apart(cs: seq<Container>)
  {
    forall i, j | 0 <= i < j < |cs| :: cs[i].arr != cs[j].arr
  }

  /** Three sets of nine containers over 27 different arrays. */
  ghost predicate Separate(rows: seq<Container>, cols: seq<Container>, boxes: seq<Container>)
  {
    Sized(rows) && Sized(cols) && Sized(boxes) &&
    Apart(rows) && Apart(cols) && Apart(boxes) &&
    (forall i, j | 0 <= i < 9 && 0 <= j < 9 :: rows[i].arr != cols[j].arr) &&
    (forall i, j | 0 <= i < 9 && 0 <= j < 9 :: rows[i].arr != boxes[j].arr) &&
    (forall i, j | 0 <= i < 9 && 0 <= j < 9 :: cols[i].arr != boxes[j].arr)
  }

  /** The current contents of the containers. */
  ghost function ViewOf(cs: seq<Container>): (v: View)
    requires Sized(cs)
    reads Arrays(cs)
    ensures Shaped(v)
    ensures forall i | 0 <= i < 9 :: v[i] == cs[i].arr[..]
  {
    seq(9, i requires 0 <= i < 9 reads Arrays(cs) => cs[i].arr[..])
  }

  /** Nine fresh default-constructed containers (a member array `Row rows[9]`). */
  method NewContainers() returns (cs: seq<Container>)
    ensures Sized(cs) && Apart(cs)
    ensures forall i | 0 <= i < 9 :: fresh(cs[i].arr)
    ensures fresh(Arrays(cs))
    ensures ViewOf(cs) == Blank()
  {
    cs := [];
    while |cs| < 9
      invariant |cs| <= 9
      invariant forall i | 0 <= i < |cs| :: fresh(cs[i].arr) && cs[i].arr.Length == ContainerSize
      invariant fresh(Arrays(cs))
      invariant forall i | 0 <= i < |cs| :: cs[i].arr[..] == Blank()[i]
      invariant Apart(cs)
    {
      var c := new Container();
      assert c.arr[..] == Blank()[|cs|];
      assert Arrays(cs + [c]) == Arrays(cs) + {c.arr};
      cs := cs + [c];
    }
  }

  /** The default-constructed row, column and box members of a Grid: 27 fresh blank containers. */
  method NewBoard() returns (rows: seq<Container>, cols: seq<Container>, boxes: seq<Container>)
    ensures Separate(rows, cols, boxes)
    ensures forall i | 0 <= i < 9 :: fresh(rows[i].arr) && fresh(cols[i].arr) && fresh(boxes[i].arr)
    ensures fresh(Arrays(rows)) && fresh(Arrays(cols)) && fresh(Arrays(boxes))
    ensures fresh(Arrays(rows) + Arrays(cols) + Arrays(boxes))
    ensures ViewOf(rows) == Blank() && ViewOf(cols) == Blank() && ViewOf(boxes) == Blank()
  {
    rows := NewContainers();
    cols := NewContainers();
    boxes := NewContainers();
  }

  /**
   * Writes x at position pos into its row, column and box container (the
   * body of Grid::set_value, and the writes Grid::solve makes on the
   * solution containers, which name the box directly).
   */
  method WriteCell(rows: seq<Container>, cols: seq<Container>, boxes: seq<Container>,
                   pos: int, box: int, x: char)
    requires Separate(rows, cols, boxes) && 0 <= pos < GridSize && box == BoxOf(pos)
    modifies rows[MapRow(pos)].arr, cols[MapColumn(pos)].arr, boxes[box].arr
    ensures ViewOf(rows) == PutRow(old(ViewOf(rows)), pos, x)
    ensures ViewOf(cols) == PutCol(old(ViewOf(cols)), pos, x)
    ensures ViewOf(boxes) == PutBox(old(ViewOf(boxes)), pos, x)
  {
    IndexBounds(pos);
    var r, c, j := MapRow(pos), MapColumn(pos), GetRowIndex(pos);
    ghost var rv, cv, bv := ViewOf(rows), ViewOf(cols), ViewOf(boxes);
    var ra, ca, ba := rows[r].arr, cols[c].arr, boxes[box].arr;
    assert ra != ca && ra != ba && ca != ba;
    rows[r].SetValue(j, x);
    cols[c].SetValue(GetColumnIndex(pos), x);
    boxes[box].SetValue(GetBoxIndex(pos), x);
    forall i | 0 <= i < 9 ensures ViewOf(rows)[i] == Put(rv, r, j, x)[i] {
      if i != r {
        assert rows[i].arr != ra && rows[i].arr != ca && rows[i].arr != ba;
      }
    }
    forall i | 0 <= i < 9 ensures ViewOf(cols)[i] == Put(cv, c, GetColumnIndex(pos), x)[i] {
      if i != c {
        assert cols[i].arr != ra && cols[i].arr != ca && cols[i].arr != ba;
      }
    }
    forall i | 0 <= i < 9 ensures ViewOf(boxes)[i] == Put(bv, box, GetBoxIndex(pos), x)[i] {
      if i != box {
        assert boxes[i].arr != ra && boxes[i].arr != ca && boxes[i].arr != ba;
      }
    }
  }

  /**
   * The candidate cells of a box as Grid::solve computes them when the
   * local positions[0] starts out holding `start`: the first cell is built
   * by adding 27 per box row and 3 per box column, the others by offsets
   * from it, all in uint8_t arithmetic.  The source never initialises
   * positions[0] before adding to it.
   */
  method CandidatePositions(box: int, start: Byte) returns (positions: seq<int>)
    requires 0 <= box < 9
    ensures |positions| == ContainerSize
    ensures forall i | 0 <= i < ContainerSize :: positions[i] == (start + BoxCell(box, i)) % 256
  {
    var first := start;
    var i := box;
    ghost var rowsDone := 0;
    while i >= 3
      invariant 0 <= i <= box && box - i == 3 * rowsDone
      invariant first == (start + 27 * rowsDone) % 256
    {
      first := (first + 27) % 256;
      i := i - 3;
      rowsDone := rowsDone + 1;
    }
    QuotientOfRows(box, i, rowsDone);
    ModAdd(start + 27 * rowsDone, 3 * (box % 3));
    first := (first + 3 * (box % 3)) % 256;
    positions := [first];
    for k := 1 to ContainerSize
      invariant |positions| == k
      invariant forall j | 0 <= j < k :: positions[j] == (start + BoxCell(box, j)) % 256
    {
      ModAdd(start + BoxCell(box, 0), ContainerSize * (k / 3) + k % 3);
      positions := positions + [(first + ContainerSize * (k / 3) + k % 3) % 256];
    }
  }

  lemma QuotientOfRows(box: int, i: int, n: int)
    requires 0 <= i < 3 && box - i == 3 * n
    ensures n == box / 3 && i == box % 3
  {
  }

  lemma ModAdd(a: int, b: int)
    ensures (a % 256 + b) % 256 == (a + b) % 256
  {
  }

  /**
   * The nine cells of a box in raster order, with positions[0] starting at
   * 0 as intended: exactly the cells BoxCell enumerates, each in the box
   * and at its own slot.
   */
  method BoxPositions(box: int) returns (positions: seq<int>)
    requires 0 <= box < 9
    ensures |positions| == ContainerSize
    ensures forall i | 0 <= i < ContainerSize :: positions[i] == BoxCell(box, i)
  {
    positions := CandidatePositions(box, 0);
    forall i | 0 <= i < ContainerSize
      ensures positions[i] == BoxCell(box, i)
    {
      BoxCellInverse(box, i);
    }
  }

  /**
   * With any start value other than 0 the first candidate is not the box's
   * first cell; with start 1, the third candidate of box 2 is cell 9, which
   * lies in box 0.
   */
  lemma UninitialisedStartMisplaces(box: int, start: Byte)
    requires 0 <= box < 9 && start != 0
    ensures (start + BoxCell(box, 0)) % 256 != BoxCell(box, 0)
    ensures (1 + BoxCell(2, 2)) % 256 == 9 && BoxOf(9) == 0
  {
    BoxCellInverse(box, 0);
  }

  /** The contents of a 9x9 matrix, row by row. */
  ghost function MatrixView(m: array2<char>): (v: View)
    requires m.Length0 == 9 && m.Length1 == 9
    reads m
    ensures Shaped(v)
    ensures forall r, c | 0 <= r < 9 && 0 <= c < 9 :: v[r][c] == m[r, c]
  {
    seq(9, r requires 0 <= r < 9 reads m => seq(9, c requires 0 <= c < 9 reads m => m[r, c]))
  }

  /**
   * The solution matrix of Grid::generate_solved_puzzle before the search:
   * '?' everywhere, then the diagonal box starting at (i, i) filled row by
   * row from the i/3-th shuffle of the digits.
   */
  method SeedMatrix(shuffles: seq<seq<int>>) returns (m: array2<char>)
    requires IsSeed(shuffles)
    ensures fresh(m) && m.Length0 == 9 && m.Length1 == 9
    ensures MatrixView(m) == SeedRows(shuffles)
  {
    m := new char[9, 9];
    for i := 0 to 9
      invariant forall r, c | 0 <= r < i && 0 <= c < 9 :: m[r, c] == Unknown
    {
      for j := 0 to 9
        invariant forall r, c | 0 <= r < i && 0 <= c < 9 :: m[r, c] == Unknown
        invariant forall c | 0 <= c < j :: m[i, c] == Unknown
      {
        m[i, j] := Unknown;
      }
    }
    var i := 0;
    while i < 9
      invariant 0 <= i <= 9 && i % 3 == 0
      invariant forall r, c | 0 <= r < 9 && 0 <= c < 9 ::
        m[r, c] == if r < i then SeedCell(shuffles, r, c) else Unknown
    {
      FillBox(m, i, shuffles[i / 3]);
      i := i + 3;
    }
    ghost var v := MatrixView(m);
    forall r | 0 <= r < 9
      ensures v[r] == SeedRows(shuffles)[r]
    {
      assert forall c | 0 <= c < 9 :: v[r][c] == SeedRows(shuffles)[r][c];
    }
  }

  /** Copies the shuffle `values` row by row into the 3x3 block at (i, i). */
  method FillBox(m: array2<char>, i: int, values: seq<int>)
    requires m.Length0 == 9 && m.Length1 == 9 && 0 <= i <= 6 && IsShuffle(values)
    modifies m
    ensures forall r, c | 0 <= r < 9 && 0 <= c < 9 ::
      m[r, c] == if i <= r < i + 3 && i <= c < i + 3 then Digit(values[3 * (r - i) + (c - i)]) else old(m[r, c])
  {
    var count := 0;
    for j := i to i + 3
      invariant count == 3 * (j - i)
      invariant forall r, c | 0 <= r < 9 && 0 <= c < 9 ::
        m[r, c] == if i <= r < j && i <= c < i + 3 then Digit(values[3 * (r - i) + (c - i)]) else old(m[r, c])
    {
      for k := i to i + 3
        invariant count == 3 * (j - i) + (k - i)
        invariant forall r, c | 0 <= r < 9 && 0 <= c < 9 ::
          m[r, c] == if (i <= r < j && i <= c < i + 3) || (r == j && i <= c < k)
                     then Digit(values[3 * (r - i) + (c - i)]) else old(m[r, c])
      {
        m[j, k] := (values[count] + Zero as int) as char;
        count := count + 1;
      }
    }
  }

  /** soln_rows: row i is a copy of the i-th matrix row. */
  method RowsFromMatrix(m: array2<char>) returns (cs: seq<Container>)
    requires m.Length0 == 9 && m.Length1 == 9
    ensures Sized(cs) && Apart(cs)
    ensures forall i | 0 <= i < 9 :: fresh(cs[i].arr)
    ensures ViewOf(cs) == MatrixView(m)
  {
    cs := [];
    for i := 0 to 9
      invariant |cs| == i
      invariant forall k | 0 <= k < i :: fresh(cs[k].arr) && cs[k].arr.Length == ContainerSize
      invariant forall k | 0 <= k < i :: cs[k].arr[..] == MatrixView(m)[k]
      invariant Apart(cs)
    {
      var row := new Container.Copy(seq(9, j requires 0 <= j < 9 reads m => m[i, j]));
      cs := cs + [row];
    }
  }

  /** soln_columns: column i is copied into temp_col from the i-th matrix column. */
  method ColumnsFromMatrix(m: array2<char>) returns (cs: seq<Container>)
    requires m.Length0 == 9 && m.Length1 == 9
    ensures Sized(cs) && Apart(cs)
    ensures forall i | 0 <= i < 9 :: fresh(cs[i].arr)
    ensures ViewOf(cs) == Columns(MatrixView(m))
  {
    var column := new char[9];
    cs := [];
    for i := 0 to 9
      invariant |cs| == i
      invariant forall k | 0 <= k < i :: fresh(cs[k].arr) && cs[k].arr.Length == ContainerSize
      invariant forall k | 0 <= k < i :: cs[k].arr[..] == Columns(MatrixView(m))[k]
      invariant forall k | 0 <= k < i :: cs[k].arr != column
      invariant Apart(cs)
      modifies column
    {
      for j := 0 to 9
        modifies column
        invariant forall k | 0 <= k < j :: column[k] == m[k, i]
      {
        column[j] := m[j, i];
      }
      assert column[..] == Columns(MatrixView(m))[i];
      var c := new Container.Copy(column[..]);
      cs := cs + [c];
    }
  }

  /**
   * soln_boxes: for centre cells (i, j), i and j in {1, 4, 7}, the nine
   * surrounding cells go row by row into temp_submat, box `count` is a copy.
   */
  method BoxesFromMatrix(m: array2<char>) returns (cs: seq<Container>)
    requires m.Length0 == 9 && m.Length1 == 9
    ensures Sized(cs) && Apart(cs)
    ensures forall i | 0 <= i < 9 :: fresh(cs[i].arr)
    ensures ViewOf(cs) == Boxes(MatrixView(m))
  {
    ghost var boxes := Boxes(MatrixView(m));
    var submatrix := new char[9];
    cs := [];
    var i := 1;
    ghost var bi := 0;
    while i < 9
      invariant 0 <= bi <= 3 && i == 3 * bi + 1
      invariant |cs| == 3 * bi
      invariant forall k | 0 <= k < |cs| :: fresh(cs[k].arr) && cs[k].arr.Length == ContainerSize
      invariant forall k | 0 <= k < |cs| :: cs[k].arr[..] == boxes[k]
      invariant forall k | 0 <= k < |cs| :: cs[k].arr != submatrix
      invariant Apart(cs)
      modifies submatrix
    {
      var band := BoxBand(m, submatrix, i, bi);
      cs := cs + band;
      i, bi := i + 3, bi + 1;
    }
  }

  /**
   * The seeded matrix of Grid::generate_solved_puzzle and the solution rows,
   * columns and boxes copied from it, over 27 new arrays.
   */
  method SeedContainers(shuffles: seq<seq<int>>)
    returns (m: array2<char>, sRows: seq<Container>, sCols: seq<Container>, sBoxes: seq<Container>)
    requires IsSeed(shuffles)
    ensures fresh(m) && m.Length0 == 9 && m.Length1 == 9 && MatrixView(m) == SeedRows(shuffles)
    ensures Separate(sRows, sCols, sBoxes)
    ensures fresh(Arrays(sRows)) && fresh(Arrays(sCols)) && fresh(Arrays(sBoxes))
    ensures ViewOf(sRows) == SeedRows(shuffles) && ViewOf(sCols) == Columns(SeedRows(shuffles))
    ensures ViewOf(sBoxes) == Boxes(SeedRows(shuffles))
  {
    m := SeedMatrix(shuffles);
    sRows := RowsFromMatrix(m);
    sCols := ColumnsFromMatrix(m);
    sBoxes := BoxesFromMatrix(m);
  }

  /** The inner loop of soln_boxes: the three boxes with centres on row i, left to right. */
  method BoxBand(m: array2<char>, submatrix: array<char>, i: int, ghost bi: int) returns (band: seq<Container>)
    requires m.Length0 == 9 && m.Length1 == 9 && submatrix.Length == 9
    requires 0 <= bi < 3 && i == 3 * bi + 1
    modifies submatrix
    ensures |band| == 3 && Apart(band)
    ensures forall k | 0 <= k < 3 :: fresh(band[k].arr) && band[k].arr.Length == ContainerSize
    ensures forall k | 0 <= k < 3 :: band[k].arr[..] == Boxes(MatrixView(m))[3 * bi + k]
    ensures forall k | 0 <= k < 3 :: band[k].arr != submatrix
  {
    band := [];
    var j := 1;
    ghost var bj := 0;
    while j < 9
      invariant 0 <= bj <= 3 && j == 3 * bj + 1 && |band| == bj
      invariant forall k | 0 <= k < bj :: fresh(band[k].arr) && band[k].arr.Length == ContainerSize
      invariant forall k | 0 <= k < bj :: band[k].arr[..] == Boxes(MatrixView(m))[3 * bi + k]
      invariant forall k | 0 <= k < bj :: band[k].arr != submatrix
      invariant Apart(band)
      modifies submatrix
    {
      var b := BoxAround(m, submatrix, i, j, bi, bj);
      band := band + [b];
      j, bj := j + 3, bj + 1;
    }
  }

  /** Box 3 * bi + bj as a copy of temp_submat, filled around centre (i, j). */
  method BoxAround(m: array2<char>, submatrix: array<char>, i: int, j: int, ghost bi: int, ghost bj: int)
    returns (b: Container)
    requires m.Length0 == 9 && m.Length1 == 9 && submatrix.Length == 9
    requires 0 <= bi < 3 && 0 <= bj < 3 && i == 3 * bi + 1 && j == 3 * bj + 1
    modifies submatrix
    ensures fresh(b.arr) && b.arr.Length == ContainerSize
    ensures b.arr[..] == Boxes(MatrixView(m))[3 * bi + bj]
  {
    Submatrix(m, submatrix, i, j);
    BoxFromCorner(MatrixView(m), bi, bj);
    b := new Container.Copy(submatrix[..]);
  }

  /** temp_submat: the nine cells around centre (i, j), row by row. */
  method Submatrix(m: array2<char>, submatrix: array<char>, i: int, j: int)
    requires m.Length0 == 9 && m.Length1 == 9 && submatrix.Length == 9
    requires 1 <= i < 8 && 1 <= j < 8
    modifies submatrix
    ensures submatrix[..] ==
      [m[i - 1, j - 1], m[i - 1, j], m[i - 1, j + 1], m[i, j - 1], m[i, j], m[i, j + 1],
       m[i + 1, j - 1], m[i + 1, j], m[i + 1, j + 1]]
  {
    submatrix[0] := m[i - 1, j - 1];
    submatrix[1] := m[i - 1, j];
    submatrix[2] := m[i - 1, j + 1];
    submatrix[3] := m[i, j - 1];
    submatrix[4] := m[i, j];
    submatrix[5] := m[i, j + 1];
    submatrix[6] := m[i + 1, j - 1];
    submatrix[7] := m[i + 1, j];
    submatrix[8] := m[i + 1, j + 1];
  }

  /** The loop after the search: every '?' of the matrix takes the value of its solution row. */
  method FillFromRows(m: array2<char>, sRows: seq<Container>)
    requires m.Length0 == 9 && m.Length1 == 9 && Sized(sRows)
    modifies m
    ensures forall r, c | 0 <= r < 9 && 0 <= c < 9 ::
      m[r, c] == if old(m[r, c]) == Unknown then ViewOf(sRows)[r][c] else old(m[r, c])
  {
    ghost var v := ViewOf(sRows);
    for i := 0 to 9
      invariant ViewOf(sRows) == v
      invariant forall r, c | 0 <= r < 9 && 0 <= c < 9 ::
        m[r, c] == if r < i && old(m[r, c]) == Unknown then v[r][c] else old(m[r, c])
    {
      for j := 0 to 9
        invariant ViewOf(sRows) == v
        invariant forall r, c | 0 <= r < 9 && 0 <= c < 9 ::
          m[r, c] == if (r < i || (r == i && c < j)) && old(m[r, c]) == Unknown then v[r][c] else old(m[r, c])
      {
        if m[i, j] == Unknown {
          m[i, j] := sRows[i].At(j);
        }
      }
    }
  }

  /** The copy of the matrix into the 81-entry result, row-major. */
  method Flatten(m: array2<char>) returns (soln: seq<char>)
    requires m.Length0 == 9 && m.Length1 == 9
    ensures soln == Cells(MatrixView(m))
  {
    soln := [];
    for i := 0 to 9
      invariant |soln| == ContainerSize * i
      invariant forall p | 0 <= p < |soln| :: soln[p] == m[p / 9, p % 9]
    {
      for j := 0 to 9
        invariant |soln| == ContainerSize * i + j
        invariant forall p | 0 <= p < |soln| :: soln[p] == m[p / 9, p % 9]
      {
        DivModOfCell(i, j);
        soln := soln + [m[i, j]];
      }
    }
  }

  /** The `positions` array init_positions fills in: 0, 1, ..., 80. */
  function AllPositions(): (ps: seq<int>)
    ensures |ps| == GridSize && forall i | 0 <= i < GridSize :: ps[i] == i
  {
    seq(GridSize, i => i)
  }

  /** Every entry is a position of the board. */
  predicate InPositions(order: seq<int>)
  {
    |order| == GridSize && forall i | 0 <= i < GridSize :: 0 <= order[i] < GridSize
  }

  /** The shuffled `positions` array: a permutation of 0..80. */
  predicate IsPositionOrder(order: seq<int>)
  {
    InPositions(order) && multiset(order) == multiset(AllPositions())
  }

  /** 0..k-1 holds every value below k once and nothing else. */
  lemma {:induction false} RangeCount(k: nat, x: int)
    ensures multiset(seq(k, i => i))[x] == if 0 <= x < k then 1 else 0
  {
    if k > 0 {
      assert seq(k, i => i) == seq(k - 1, i => i) + [k - 1];
      RangeCount(k - 1, x);
    }
  }

  /** A permutation of 0..80 holds every position, each once. */
  lemma PositionOrderFacts(order: seq<int>)
    requires IsPositionOrder(order)
    ensures forall i, j | 0 <= i < j < GridSize :: order[i] != order[j]
    ensures forall pos | 0 <= pos < GridSize :: pos in order
  {
    forall i, j | 0 <= i < j < GridSize ensures order[i] != order[j] {
      if order[i] == order[j] {
        RepeatCount(order, i, j);
        RangeCount(GridSize, order[i]);
      }
    }
    forall pos | 0 <= pos < GridSize ensures pos in order {
      RangeCount(GridSize, pos);
      assert pos in multiset(order);
    }
  }

  /** The first n entries of an order are n different positions. */
  lemma {:induction false} RevealedCount(order: seq<int>, n: nat)
    requires n <= |order| && forall i, j | 0 <= i < j < |order| :: order[i] != order[j]
    ensures |Revealed(order, n)| == n
  {
    if n > 0 {
      RevealedCount(order, n - 1);
      assert Revealed(order, n) == Revealed(order, n - 1) + {order[n - 1]};
    }
  }

  /** The positions among the first n entries of an order. */
  ghost function Revealed(order: seq<int>, n: nat): set<int>
    requires n <= |order|
  {
    set i | 0 <= i < n :: order[i]
  }

  /** The cells after the first n positions of the order took their solved values. */
  function Reveal(cells: seq<char>, solved: seq<char>, order: seq<int>, n: nat): (r: seq<char>)
    requires |cells| == GridSize && |solved| == GridSize && InPositions(order) && n <= GridSize
    ensures |r| == GridSize
  {
    if n == 0 then cells
    else Reveal(cells, solved, order, n - 1)[order[n - 1] := solved[order[n - 1]]]
  }

  /** A revealed cell holds its solved value; every other cell is as it was. */
  lemma {:induction false} RevealAt(cells: seq<char>, solved: seq<char>, order: seq<int>, n: nat)
    requires |cells| == GridSize && |solved| == GridSize && InPositions(order) && n <= GridSize
    ensures forall pos | 0 <= pos < GridSize ::
      Reveal(cells, solved, order, n)[pos] == if pos in order[..n] then solved[pos] else cells[pos]
  {
    if n > 0 {
      RevealAt(cells, solved, order, n - 1);
      assert order[..n] == order[..n - 1] + [order[n - 1]];
    }
  }

  /** How many of the 81 positions a known-positions array flags. */
  ghost function KnownCount(known: seq<bool>): int
    requires |known| == GridSize
  {
    |set pos | 0 <= pos < GridSize && known[pos]|
  }

  /**
   * Flags set on the first n positions of an order and cleared on the rest:
   * exactly those n positions are known.
   */
  lemma KnownExactlyRevealed(order: seq<int>, n: nat, known: seq<bool>)
    requires IsPositionOrder(order) && n <= GridSize && |known| == GridSize
    requires forall j | 0 <= j < n :: known[order[j]]
    requires forall j | n <= j < GridSize :: !known[order[j]]
    ensures forall pos | 0 <= pos < GridSize :: known[pos] <==> pos in order[..n]
    ensures KnownCount(known) == n
  {
    PositionOrderFacts(order);
    forall pos | 0 <= pos < GridSize
      ensures known[pos] <==> pos in order[..n]
    {
      assert pos in order;
      var j :| 0 <= j < GridSize && order[j] == pos;
      if j < n {
        assert order[..n][j] == pos;
      }
    }
    RevealedCount(order, n);
    assert (set pos | 0 <= pos < GridSize && known[pos]) == Revealed(order, n);
  }

  class Grid {
    const rows: seq<Container>
    const cols: seq<Container>
    const boxes: seq<Container>
    const known: array<bool>
    /** grid_map: position -> (row, column) of the 9x9 matrix. */
    var gridMap: map<int, (int, int)>

    /**
     * Grid(), the default constructor: blank row, column and box members, a
     * known-positions array and an empty map.  The C++ array is left
     * uninitialised; here its flags start out false.
     */
    constructor ()
      ensures Separate(rows, cols, boxes) && known.Length == GridSize
      ensures ViewOf(rows) == Blank() && ViewOf(cols) == Blank() && ViewOf(boxes) == Blank()
      ensures fresh(Repr()) && fresh(known) && gridMap == map[]
    {
      var r, c, b := NewBoard();
      var k := new bool[GridSize];
      rows, cols, boxes, known := r, c, b, k;
      gridMap := map[];
    }

    /**
     * Grid(GRID), for a saved game: the map is built, every cell holds its
     * matrix value and exactly the non-'?' cells are known.
     */
    static method FromMatrix(grid: seq<seq<char>>) returns (g: Grid)
      requires Shaped(grid)
      ensures fresh(g) && fresh(g.Repr()) && fresh(g.known) && g.Valid()
      ensures g.Contents() == Cells(grid)
      ensures forall pos | 0 <= pos < GridSize :: g.known[pos] <==> RowAt(grid, pos) != Unknown
      ensures forall pos | 0 <= pos < GridSize :: pos in g.gridMap && g.gridMap[pos] == (MapRow(pos), MapColumn(pos))
      ensures forall k :: k in g.gridMap <==> 0 <= k < GridSize
    {
      g := new Grid();
      g.Start();
      g.SetStartingPositionsFromMatrix(grid);
    }

    /**
     * Grid(DIFF), for a new game: the map is built and the number of clues
     * the level stands for is revealed from a generated solution; all other
     * cells stay '?'.
     */
    static method FromDifficulty(diff: Misc.Difficulty, shuffles: seq<seq<int>>, order: seq<int>)
      returns (g: Grid, ghost solution: seq<char>, ghost solutionFound: bool)
      requires IsSeed(shuffles) && IsPositionOrder(order)
      ensures fresh(g) && fresh(g.Repr()) && fresh(g.known) && g.Valid()
      ensures |solution| == GridSize && Kept(SeedRows(shuffles), RowsOf(solution))
      ensures solutionFound ==> Solved(solution)
      ensures forall pos | 0 <= pos < GridSize :: g.known[pos] <==> pos in order[..Misc.Clues(diff)]
      ensures KnownCount(g.known[..]) == Misc.Clues(diff)
      ensures forall pos | 0 <= pos < GridSize ::
        g.Contents()[pos] == if pos in order[..Misc.Clues(diff)] then solution[pos] else Unknown
      ensures forall pos | 0 <= pos < GridSize :: pos in g.gridMap && g.gridMap[pos] == (MapRow(pos), MapColumn(pos))
      ensures forall k :: k in g.gridMap <==> 0 <= k < GridSize
    {
      g := new Grid();
      g.Start();
      solution, solutionFound := g.SetStartingPositions(Misc.Clues(diff), shuffles, order);
    }

    /**
     * The part both constructors share, run on the blank default-constructed
     * containers: create_map, then init_known_positions.
     */
    method Start()
      requires Separate(rows, cols, boxes) && known.Length == GridSize
      requires ViewOf(rows) == Blank() && ViewOf(cols) == Blank() && ViewOf(boxes) == Blank()
      modifies this`gridMap, known
      ensures Valid() && forall pos | 0 <= pos < GridSize :: Contents()[pos] == Unknown
      ensures forall pos | 0 <= pos < GridSize :: !known[pos]
      ensures forall pos | 0 <= pos < GridSize :: pos in gridMap && gridMap[pos] == (MapRow(pos), MapColumn(pos))
      ensures forall k :: k in gridMap <==> k in old(gridMap) || 0 <= k < GridSize
    {
      BlankSynced();
      CreateMap();
      InitKnownPositions();
      assert ViewOf(rows) == Blank() && ViewOf(cols) == Blank() && ViewOf(boxes) == Blank();
      BlankCells();
    }

    ghost function Repr(): set<array<char>>
    {
      Arrays(rows) + Arrays(cols) + Arrays(boxes)
    }

    ghost predicate Valid()
      reads Repr()
    {
      Separate(rows, cols, boxes) && known.Length == GridSize &&
      Synced(ViewOf(rows), ViewOf(cols), ViewOf(boxes))
    }

    /** The 81 cells, row-major, as the rows hold them. */
    ghost function Contents(): (cells: seq<char>)
      requires Valid()
      reads Repr()
      ensures |cells| == GridSize
    {
      Cells(ViewOf(rows))
    }

    /**
     * Writes v at pos in all three views (Grid::set_value): afterwards the
     * views still agree, pos holds v and every other cell is unchanged.
     */
    method SetValue(pos: int, v: char)
      requires Valid() && 0 <= pos < GridSize
      modifies Repr()
      ensures Valid()
      ensures Contents() == old(Contents())[pos := v]
    {
      IndexBounds(pos);
      var box := MapBox(MapRow(pos), MapColumn(pos));
      ghost var rv, cv, bv := ViewOf(rows), ViewOf(cols), ViewOf(boxes);
      WriteKeepsSync(rv, cv, bv, pos, v);
      WriteCell(rows, cols, boxes, pos, box, v);
      assert Contents() == Cells(rv)[pos := v];
    }

    /** The value at pos, read from its row (Grid::at). */
    method At(pos: int) returns (v: char)
      requires Valid() && 0 <= pos < GridSize
      ensures Valid()
      ensures v == Contents()[pos]
      ensures v == ColAt(ViewOf(cols), pos) && v == BoxAt(ViewOf(boxes), pos)
    {
      IndexBounds(pos);
      ghost var rv, cv, bv := ViewOf(rows), ViewOf(cols), ViewOf(boxes);
      v := rows[MapRow(pos)].At(GetRowIndex(pos));
      assert ViewOf(rows) == rv && ViewOf(cols) == cv && ViewOf(boxes) == bv;
    }

    /** Grid::is_known. */
    method IsKnown(pos: int) returns (b: bool)
      requires known.Length == GridSize && 0 <= pos < GridSize
      ensures b == known[pos]
    {
      b := known[pos];
    }

    /**
     * Whether every row, column and box evaluates as complete
     * (Grid::evaluate); this is exactly "the grid holds a solved Sudoku".
     */
    method Evaluate() returns (ok: bool)
      requires Valid()
      ensures Valid()
      ensures ok <==> forall i | 0 <= i < 9 ::
        Complete(ViewOf(rows)[i]) && Complete(ViewOf(cols)[i]) && Complete(ViewOf(boxes)[i])
      ensures ok <==> Solved(Contents())
    {
      ghost var rv, cv, bv := ViewOf(rows), ViewOf(cols), ViewOf(boxes);
      SyncedCompleteIsSolved(rv, cv, bv);
      for i := 0 to 9
        invariant ViewOf(rows) == rv && ViewOf(cols) == cv && ViewOf(boxes) == bv
        invariant forall k | 0 <= k < i :: Complete(rv[k]) && Complete(cv[k]) && Complete(bv[k])
      {
        var rowOk := rows[i].Evaluate();
        var colOk := cols[i].Evaluate();
        var boxOk := boxes[i].Evaluate();
        assert ViewOf(rows) == rv && ViewOf(cols) == cv && ViewOf(boxes) == bv;
        if !rowOk || !colOk || !boxOk {
          return false;
        }
      }
      return true;
    }

    /** Grid::create_map: position i * 9 + j is mapped to the cell (i, j). */
    method CreateMap()
      modifies this`gridMap
      ensures forall pos | 0 <= pos < GridSize :: pos in gridMap && gridMap[pos] == (MapRow(pos), MapColumn(pos))
      ensures forall k :: k in gridMap <==> k in old(gridMap) || 0 <= k < GridSize
      ensures forall k | k in old(gridMap) && !(0 <= k < GridSize) :: gridMap[k] == old(gridMap)[k]
    {
      for i := 0 to 9
        invariant forall pos | 0 <= pos < 9 * i :: pos in gridMap && gridMap[pos] == (MapRow(pos), MapColumn(pos))
        invariant forall k :: k in gridMap <==> k in old(gridMap) || 0 <= k < 9 * i
        invariant forall k | k in old(gridMap) && !(0 <= k < 9 * i) :: gridMap[k] == old(gridMap)[k]
      {
        for j := 0 to 9
          invariant forall pos | 0 <= pos < 9 * i + j :: pos in gridMap && gridMap[pos] == (MapRow(pos), MapColumn(pos))
          invariant forall k :: k in gridMap <==> k in old(gridMap) || 0 <= k < 9 * i + j
          invariant forall k | k in old(gridMap) && !(0 <= k < 9 * i + j) :: gridMap[k] == old(gridMap)[k]
        {
          DivModOfCell(i, j);
          gridMap := gridMap[i * ContainerSize + j := (i, j)];
        }
      }
    }

    /**
     * One step of the Bowman's Bingo search (Grid::solve): place `value` in
     * each legal cell of `box` in turn (raster order, the queue of legal
     * cells built first), recurse on the next (box, value) pair, and undo the
     * placement when the recursion fails.  The pairs run through boxes
     * 1, 2, 3, 5, 6, 7 for value 1, then again for value 2, up to (7, 9).
     *
     * On success all 54 placements are in: every off-diagonal box holds
     * every digit and no row, column or box repeats one.  On failure the
     * containers and the known flags are exactly as before.  Cells already
     * filled on entry are never overwritten.
     */
    method Solve(box: int, value: int, sRows: seq<Container>, sCols: seq<Container>, sBoxes: seq<Container>)
      returns (ok: bool)
      requires known.Length == GridSize && Separate(sRows, sCols, sBoxes)
      requires OffDiagonal(box) && 1 <= value <= 9
      requires Placed(ViewOf(sRows), ViewOf(sCols), ViewOf(sBoxes), known[..], Step(box, value))
      modifies Arrays(sRows), Arrays(sCols), Arrays(sBoxes), known
      ensures ok ==> Placed(ViewOf(sRows), ViewOf(sCols), ViewOf(sBoxes), known[..], 54)
      ensures !ok ==> ViewOf(sRows) == old(ViewOf(sRows)) && ViewOf(sCols) == old(ViewOf(sCols)) &&
                      ViewOf(sBoxes) == old(ViewOf(sBoxes)) && known[..] == old(known[..])
      ensures Kept(old(ViewOf(sRows)), ViewOf(sRows))
      decreases 54 - Step(box, value), 1
    {
      ghost var r0, c0, b0, k0 := ViewOf(sRows), ViewOf(sCols), ViewOf(sBoxes), known[..];
      var available := AvailablePositions(box, value, sRows, sCols);
      assert ViewOf(sRows) == r0 && ViewOf(sCols) == c0 && ViewOf(sBoxes) == b0 && known[..] == k0;
      while true
        invariant ViewOf(sRows) == r0 && ViewOf(sCols) == c0 && ViewOf(sBoxes) == b0 && known[..] == k0
        invariant forall j | 0 <= j < |available| :: Candidate(r0, c0, k0, box, value, available[j])
        decreases |available|
      {
        if |available| == 0 {
          return false;
        }
        ok := TryPosition(box, value, available[0], sRows, sCols, sBoxes);
        if ok {
          return ok;
        }
        available := available[1..];
      }
    }

    /**
     * The body of the loop of Grid::solve for the front cell `pos` of the
     * queue: steps 1 to 6 of the search.
     */
    method TryPosition(box: int, value: int, pos: int,
                       sRows: seq<Container>, sCols: seq<Container>, sBoxes: seq<Container>)
      returns (ok: bool)
      requires known.Length == GridSize && Separate(sRows, sCols, sBoxes)
      requires OffDiagonal(box) && 1 <= value <= 9
      requires Placed(ViewOf(sRows), ViewOf(sCols), ViewOf(sBoxes), known[..], Step(box, value))
      requires Candidate(ViewOf(sRows), ViewOf(sCols), known[..], box, value, pos)
      modifies Arrays(sRows), Arrays(sCols), Arrays(sBoxes), known
      ensures ok ==> Placed(ViewOf(sRows), ViewOf(sCols), ViewOf(sBoxes), known[..], 54)
      ensures !ok ==> ViewOf(sRows) == old(ViewOf(sRows)) && ViewOf(sCols) == old(ViewOf(sCols)) &&
                      ViewOf(sBoxes) == old(ViewOf(sBoxes)) && known[..] == old(known[..])
      ensures Kept(old(ViewOf(sRows)), ViewOf(sRows))
      decreases 54 - Step(box, value), 0
    {
      ghost var r0, c0, b0, k0 := ViewOf(sRows), ViewOf(sCols), ViewOf(sBoxes), known[..];
      var digit := ((value + Zero as int) % 256) as char;
      assert digit == Digit(value);
      Place(box, value, pos, digit, sRows, sCols, sBoxes);
      if box == 7 && value == 9 {
        return true;
      }
      var nextBox := if box == 3 then 5 else if box == 7 then 1 else box + 1;
      var nextValue := if box == 7 then value + 1 else value;
      NextIsNextStep(box, value);
      ghost var r1 := ViewOf(sRows);
      ok := Solve(nextBox, nextValue, sRows, sCols, sBoxes);
      if ok {
        KeptTransitive(r0, r1, ViewOf(sRows));
        return ok;
      }
      Unplace(pos, digit, r0, c0, b0, k0, sRows, sCols, sBoxes);
      ok := false;
    }

    /**
     * Step 1 of the search for the front cell `pos`: the value goes into its
     * row, column and box and pos becomes known, which places one more step.
     */
    method Place(box: int, value: int, pos: int, digit: char,
                 sRows: seq<Container>, sCols: seq<Container>, sBoxes: seq<Container>)
      requires known.Length == GridSize && Separate(sRows, sCols, sBoxes)
      requires OffDiagonal(box) && 1 <= value <= 9 && digit == Digit(value)
      requires Placed(ViewOf(sRows), ViewOf(sCols), ViewOf(sBoxes), known[..], Step(box, value))
      requires Candidate(ViewOf(sRows), ViewOf(sCols), known[..], box, value, pos)
      modifies Arrays(sRows), Arrays(sCols), Arrays(sBoxes), known
      ensures ViewOf(sRows) == PutRow(old(ViewOf(sRows)), pos, digit)
      ensures ViewOf(sCols) == PutCol(old(ViewOf(sCols)), pos, digit)
      ensures ViewOf(sBoxes) == PutBox(old(ViewOf(sBoxes)), pos, digit)
      ensures known[..] == old(known[..])[pos := true]
      ensures RowAt(old(ViewOf(sRows)), pos) == Unknown
      ensures Placed(ViewOf(sRows), ViewOf(sCols), ViewOf(sBoxes), known[..], Step(box, value) + 1)
      ensures Kept(old(ViewOf(sRows)), ViewOf(sRows))
    {
      ghost var r0, c0, b0, k0 := ViewOf(sRows), ViewOf(sCols), ViewOf(sBoxes), known[..];
      IndexBounds(pos);
      assert RowAt(r0, pos) == Unknown;
      assert Placed(PutRow(r0, pos, digit), PutCol(c0, pos, digit), PutBox(b0, pos, digit), k0[pos := true],
                    Step(box, value) + 1) && Kept(r0, PutRow(r0, pos, digit)) by {
        PlaceStep(r0, c0, b0, k0, box, value, pos);
        WriteKeptCells(r0, c0, b0, pos, digit);
      }
      Mark(sRows, sCols, sBoxes, pos, BoxOf(pos), digit, true);
    }

    /**
     * Step 5 of the search: the placement at pos did not lead to a solution,
     * so its row, column and box get '?' back and pos is unknown again.
     */
    method Unplace(pos: int, digit: char, ghost r0: View, ghost c0: View, ghost b0: View, ghost k0: seq<bool>,
                   sRows: seq<Container>, sCols: seq<Container>, sBoxes: seq<Container>)
      requires known.Length == GridSize && Separate(sRows, sCols, sBoxes)
      requires Synced(r0, c0, b0) && 0 <= pos < GridSize && RowAt(r0, pos) == Unknown
      requires |k0| == GridSize && !k0[pos]
      requires ViewOf(sRows) == PutRow(r0, pos, digit) && ViewOf(sCols) == PutCol(c0, pos, digit)
      requires ViewOf(sBoxes) == PutBox(b0, pos, digit) && known[..] == k0[pos := true]
      modifies Arrays(sRows), Arrays(sCols), Arrays(sBoxes), known
      ensures ViewOf(sRows) == r0 && ViewOf(sCols) == c0 && ViewOf(sBoxes) == b0 && known[..] == k0
    {
      UndoWrite(r0, c0, b0, pos, digit);
      Mark(sRows, sCols, sBoxes, pos, BoxOf(pos), Unknown, false);
      assert known[..] == k0;
    }

    /**
     * The writes of one placement or one undo of Grid::solve: x into the
     * row, column and box of pos, and the known flag of pos set to `flag`.
     */
    method Mark(sRows: seq<Container>, sCols: seq<Container>, sBoxes: seq<Container>,
                pos: int, box: int, x: char, flag: bool)
      requires known.Length == GridSize && Separate(sRows, sCols, sBoxes)
      requires 0 <= pos < GridSize && box == BoxOf(pos)
      modifies Arrays(sRows), Arrays(sCols), Arrays(sBoxes), known
      ensures ViewOf(sRows) == PutRow(old(ViewOf(sRows)), pos, x)
      ensures ViewOf(sCols) == PutCol(old(ViewOf(sCols)), pos, x)
      ensures ViewOf(sBoxes) == PutBox(old(ViewOf(sBoxes)), pos, x)
      ensures known[..] == old(known[..])[pos := flag]
    {
      ghost var r, c, b := ViewOf(sRows), ViewOf(sCols), ViewOf(sBoxes);
      IndexBounds(pos);
      WriteCell(sRows, sCols, sBoxes, pos, box, x);
      ghost var r', c', b' := ViewOf(sRows), ViewOf(sCols), ViewOf(sBoxes);
      known[pos] := flag;
      assert ViewOf(sRows) == r' && ViewOf(sCols) == c' && ViewOf(sBoxes) == b';
    }

    /**
     * The queue Grid::solve builds: the cells of `box` in raster order whose
     * row and column lack `value` and which are not known yet.
     */
    method AvailablePositions(box: int, value: int, sRows: seq<Container>, sCols: seq<Container>)
      returns (available: seq<int>)
      requires known.Length == GridSize && Sized(sRows) && Sized(sCols)
      requires 0 <= box < 9 && 1 <= value <= 9
      ensures forall j | 0 <= j < |available| :: Candidate(ViewOf(sRows), ViewOf(sCols), known[..], box, value, available[j])
      ensures forall i | 0 <= i < ContainerSize && Candidate(ViewOf(sRows), ViewOf(sCols), known[..], box, value, BoxCell(box, i)) ::
        BoxCell(box, i) in available
      ensures forall j, j' | 0 <= j < j' < |available| :: available[j] < available[j']
    {
      ghost var r0, c0, k0 := ViewOf(sRows), ViewOf(sCols), known[..];
      var positions := BoxPositions(box);
      available := [];
      for i := 0 to ContainerSize
        invariant ViewOf(sRows) == r0 && ViewOf(sCols) == c0 && known[..] == k0
        invariant available == CandidateCells(r0, c0, k0, box, value, i)
      {
        var free := IsAvailable(box, value, i, positions[i], sRows, sCols);
        assert ViewOf(sRows) == r0 && ViewOf(sCols) == c0;
        if free {
          available := available + [positions[i]];
        }
      }
      CandidateCellsSpec(r0, c0, k0, box, value, ContainerSize);
    }

    /**
     * The test Grid::solve applies to each cell of the box: its row and its
     * column lack `value` and it is not known.
     */
    method IsAvailable(box: int, value: int, slot: int, pos: int, sRows: seq<Container>, sCols: seq<Container>)
      returns (free: bool)
      requires known.Length == GridSize && Sized(sRows) && Sized(sCols)
      requires 0 <= box < 9 && 0 <= slot < ContainerSize && pos == BoxCell(box, slot) && 1 <= value <= 9
      ensures free <==> Candidate(ViewOf(sRows), ViewOf(sCols), known[..], box, value, pos)
    {
      BoxCellInverse(box, slot);
      IndexBounds(pos);
      var inRow := sRows[MapRow(pos)].ValueExists(value);
      var inColumn := sCols[MapColumn(pos)].ValueExists(value);
      var isKnown := IsKnown(pos);
      free := !inRow && !inColumn && !isKnown;
    }

    /**
     * Grid::generate_solved_puzzle with the three shuffles of `values` as
     * input: seeds the diagonal boxes, runs the search from (1, 1) over fresh
     * solution containers and returns the filled matrix. The seeded cells
     * survive; a successful search gives a solved grid and leaves every cell
     * outside the diagonal flagged known; a failed one returns the seed.
     */
    method GenerateSolvedPuzzle(shuffles: seq<seq<int>>) returns (soln: seq<char>, found: bool)
      requires IsSeed(shuffles) && known.Length == GridSize
      requires forall pos | 0 <= pos < GridSize && OffDiagonal(BoxOf(pos)) :: !known[pos]
      modifies known
      ensures |soln| == GridSize
      ensures Kept(SeedRows(shuffles), RowsOf(soln))
      ensures found ==> Solved(soln) && forall pos | 0 <= pos < GridSize && OffDiagonal(BoxOf(pos)) :: known[pos]
      ensures !found ==> soln == Cells(SeedRows(shuffles)) && known[..] == old(known[..])
    {
      ghost var seed := SeedRows(shuffles);
      var m, sRows;
      m, sRows, found := SeedAndSearch(shuffles);
      ghost var solved := ViewOf(sRows);
      FillFromRows(m, sRows);
      assert MatrixView(m) == solved by {
        forall r | 0 <= r < 9 ensures MatrixView(m)[r] == solved[r] {
          forall c | 0 <= c < 9 ensures MatrixView(m)[r][c] == solved[r][c] {
            DivModOfCell(r, c);
            assert RowAt(seed, 9 * r + c) == seed[r][c];
          }
        }
      }
      soln := Flatten(m);
      RowsOfCells(solved);
    }

    /**
     * The seeding and the search of Grid::generate_solved_puzzle: the seeded
     * matrix, the solution rows after solve(1, 1, ...) and its result.
     */
    method SeedAndSearch(shuffles: seq<seq<int>>) returns (m: array2<char>, sRows: seq<Container>, found: bool)
      requires IsSeed(shuffles) && known.Length == GridSize
      requires forall pos | 0 <= pos < GridSize && OffDiagonal(BoxOf(pos)) :: !known[pos]
      modifies known
      ensures fresh(m) && m.Length0 == 9 && m.Length1 == 9 && MatrixView(m) == SeedRows(shuffles)
      ensures Sized(sRows) && Kept(SeedRows(shuffles), ViewOf(sRows))
      ensures found ==> Solved(Cells(ViewOf(sRows))) &&
                        forall pos | 0 <= pos < GridSize && OffDiagonal(BoxOf(pos)) :: known[pos]
      ensures !found ==> ViewOf(sRows) == SeedRows(shuffles) && known[..] == old(known[..])
    {
      var sCols, sBoxes;
      m, sRows, sCols, sBoxes := SeedContainers(shuffles);
      SeedPlaced(shuffles, known[..]);
      found := Solve(1, 1, sRows, sCols, sBoxes);
      if found {
        SearchSolves(ViewOf(sRows), ViewOf(sCols), ViewOf(sBoxes), known[..]);
      }
    }

    /**
     * Grid::set_starting_positions(NUM_POSITIONS) for a new game, with the
     * digit shuffles and the position order as input: the first n positions
     * of the order take their value from the generated solution and are the
     * only known positions; every other cell keeps its value.
     */
    method SetStartingPositions(n: int, shuffles: seq<seq<int>>, order: seq<int>)
      returns (ghost solution: seq<char>, ghost solutionFound: bool)
      requires Valid() && IsSeed(shuffles) && IsPositionOrder(order) && 0 <= n <= GridSize
      requires forall pos | 0 <= pos < GridSize && OffDiagonal(BoxOf(pos)) :: !known[pos]
      modifies Repr(), known
      ensures Valid()
      ensures |solution| == GridSize && Kept(SeedRows(shuffles), RowsOf(solution))
      ensures solutionFound ==> Solved(solution)
      ensures forall pos | 0 <= pos < GridSize :: known[pos] <==> pos in order[..n]
      ensures KnownCount(known[..]) == n
      ensures forall pos | 0 <= pos < GridSize ::
        Contents()[pos] == if pos in order[..n] then solution[pos] else old(Contents())[pos]
    {
      var solved, found := GenerateSolvedPuzzle(shuffles);
      solution, solutionFound := solved, found;
      RevealClues(n, order, solved);
      ClearOthers(n, order);
      KnownExactlyRevealed(order, n, known[..]);
    }

    /** The first loop of set_starting_positions: reveal the first n positions of the order. */
    method RevealClues(n: int, order: seq<int>, solved: seq<char>)
      requires Valid() && InPositions(order) && 0 <= n <= GridSize && |solved| == GridSize
      modifies Repr(), known
      ensures Valid()
      ensures forall pos | 0 <= pos < GridSize ::
        Contents()[pos] == if pos in order[..n] then solved[pos] else old(Contents())[pos]
      ensures forall j | 0 <= j < n :: known[order[j]]
    {
      ghost var c0 := Contents();
      for i := 0 to n
        invariant Valid()
        invariant Contents() == Reveal(c0, solved, order, i)
        invariant forall j | 0 <= j < i :: known[order[j]]
      {
        var pos := order[i];
        Reveal1(pos, solved[pos]);
      }
      RevealAt(c0, solved, order, n);
    }

    /** One step of that loop: pos takes value v and is flagged known. */
    method Reveal1(pos: int, v: char)
      requires Valid() && 0 <= pos < GridSize
      modifies Repr(), known
      ensures Valid()
      ensures Contents() == old(Contents())[pos := v]
      ensures known[..] == old(known[..])[pos := true]
    {
      SetValue(pos, v);
      ghost var c1 := Contents();
      known[pos] := true;
      assert Valid() && Contents() == c1;
    }

    /** The second loop of set_starting_positions: every later position of the order is not known. */
    method ClearOthers(n: int, order: seq<int>)
      requires known.Length == GridSize && IsPositionOrder(order) && 0 <= n <= GridSize
      modifies known
      ensures forall j | 0 <= j < n :: known[order[j]] == old(known[order[j]])
      ensures forall j | n <= j < GridSize :: !known[order[j]]
    {
      PositionOrderFacts(order);
      for i := n to GridSize
        invariant forall j | 0 <= j < n :: known[order[j]] == old(known[order[j]])
        invariant forall j | n <= j < i :: !known[order[j]]
      {
        known[order[i]] := false;
      }
    }

    /**
     * Grid::set_starting_positions(GRID) for a saved game: every cell takes
     * its matrix value, and exactly the cells that are not '?' are known.
     */
    method SetStartingPositionsFromMatrix(grid: seq<seq<char>>)
      requires Valid() && Shaped(grid)
      modifies Repr(), known
      ensures Valid()
      ensures Contents() == Cells(grid)
      ensures forall pos | 0 <= pos < GridSize :: known[pos] <==> RowAt(grid, pos) != Unknown
    {
      for i := 0 to GridSize
        invariant Valid()
        invariant forall pos | 0 <= pos < i :: Contents()[pos] == RowAt(grid, pos)
        invariant forall pos | 0 <= pos < i :: known[pos] <==> RowAt(grid, pos) != Unknown
      {
        IndexBounds(i);
        var value := grid[i / 9][i % 9];
        SetValue(i, value);
        ghost var c1 := Contents();
        known[i] := value != Unknown;
        assert Valid() && Contents() == c1;
      }
    }

    /** Grid::init_known_positions: no position is known. */
    method InitKnownPositions()
      requires known.Length == GridSize
      modifies known
      ensures forall pos | 0 <= pos < GridSize :: !known[pos]
    {
      for i := 0 to GridSize
        invariant forall pos | 0 <= pos < i :: !known[pos]
      {
        known[i] := false;
      }
    }
  }
}

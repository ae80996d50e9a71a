/**
 * The 81 cells of a Grid seen three ways: as nine rows, nine columns and
 * nine boxes.  This module states, on snapshots of the container contents,
 * when the three views agree, what writing one cell does to them, and the
 * invariant of the Bowman's Bingo search that Grid::solve runs.
 */
module Board {
  import opened Positions
  import opened Digits

  /** Contents of nine containers, container by container. */
  type View = seq<seq<char>>

  ghost predicate Shaped(v: View)
  {
    |v| == 9 && forall i | 0 <= i < 9 :: |v[i]| == 9
  }

  function RowAt(rows: View, pos: int): char
    requires Shaped(rows) && 0 <= pos < GridSize
  {
    rows[MapRow(pos)][GetRowIndex(pos)]
  }

  function ColAt(cols: View, pos: int): char
    requires Shaped(cols) && 0 <= pos < GridSize
  {
    cols[MapColumn(pos)][GetColumnIndex(pos)]
  }

  function BoxAt(boxes: View, pos: int): char
    requires Shaped(boxes) && 0 <= pos < GridSize
  {
    boxes[BoxOf(pos)][GetBoxIndex(pos)]
  }

  /** The three views hold the same value at every position. */
  ghost predicate Synced(rows: View, cols: View, boxes: View)
  {
    Shaped(rows) && Shaped(cols) && Shaped(boxes) &&
    forall pos | 0 <= pos < GridSize ::
      ColAt(cols, pos) == RowAt(rows, pos) && BoxAt(boxes, pos) == RowAt(rows, pos)
  }

  /** Slot j of container i replaced by x. */
  function Put(v: View, i: int, j: int, x: char): (r: View)
    requires Shaped(v) && 0 <= i < 9 && 0 <= j < 9
    ensures Shaped(r)
  {
    v[i := v[i][j := x]]
  }

  function PutRow(rows: View, pos: int, x: char): View
    requires Shaped(rows) && 0 <= pos < GridSize
  {
    Put(rows, MapRow(pos), GetRowIndex(pos), x)
  }

  function PutCol(cols: View, pos: int, x: char): View
    requires Shaped(cols) && 0 <= pos < GridSize
  {
    Put(cols, MapColumn(pos), GetColumnIndex(pos), x)
  }

  function PutBox(boxes: View, pos: int, x: char): View
    requires Shaped(boxes) && 0 <= pos < GridSize
  {
    Put(boxes, BoxOf(pos), GetBoxIndex(pos), x)
  }

  /**
   * Writing x at pos into all three views keeps them in step, makes pos hold
   * x, and leaves every other position as it was.
   */
  lemma {:induction false} WriteKeepsSync(rows: View, cols: View, boxes: View, pos: int, x: char)
    requires Synced(rows, cols, boxes) && 0 <= pos < GridSize
    ensures Synced(PutRow(rows, pos, x), PutCol(cols, pos, x), PutBox(boxes, pos, x))
    ensures RowAt(PutRow(rows, pos, x), pos) == x
    ensures forall q | 0 <= q < GridSize && q != pos :: RowAt(PutRow(rows, pos, x), q) == RowAt(rows, q)
  {
    var rows', cols', boxes' := PutRow(rows, pos, x), PutCol(cols, pos, x), PutBox(boxes, pos, x);
    forall q | 0 <= q < GridSize
      ensures ColAt(cols', q) == RowAt(rows', q) && BoxAt(boxes', q) == RowAt(rows', q)
      ensures q != pos ==> RowAt(rows', q) == RowAt(rows, q)
    {
      if q != pos {
        if BoxOf(q) == BoxOf(pos) && GetBoxIndex(q) == GetBoxIndex(pos) {
          BoxSlotInjective(q, pos);
        }
        assert BoxAt(boxes', q) == BoxAt(boxes, q);
      }
    }
  }

  /** Writing back the old value of a slot undoes a write. */
  lemma PutUndo(v: View, i: int, j: int, x: char)
    requires Shaped(v) && 0 <= i < 9 && 0 <= j < 9
    ensures Put(Put(v, i, j, x), i, j, v[i][j]) == v
  {
    assert v[i][j := x][j := v[i][j]] == v[i];
  }

  /** Nine containers of '?' only. */
  function Blank(): (v: View)
    ensures Shaped(v)
  {
    seq(9, i => seq(9, j => Unknown))
  }

  lemma BlankSynced()
    ensures Synced(Blank(), Blank(), Blank())
  {
  }

  /** Every cell of the blank board is '?'. */
  lemma BlankCells()
    ensures forall pos | 0 <= pos < GridSize :: Cells(Blank())[pos] == Unknown
  {
    forall pos | 0 <= pos < GridSize
      ensures Cells(Blank())[pos] == Unknown
    {
      IndexBounds(pos);
    }
  }

  /** Every filled cell of `before` holds the same value in `after`. */
  ghost predicate Kept(before: View, after: View)
  {
    Shaped(before) && Shaped(after) &&
    forall pos | 0 <= pos < GridSize && RowAt(before, pos) != Unknown :: RowAt(after, pos) == RowAt(before, pos)
  }

  lemma KeptTransitive(a: View, b: View, c: View)
    requires Kept(a, b) && Kept(b, c)
    ensures Kept(a, c)
  {
  }

  /** Writing into a free cell keeps every filled cell. */
  lemma WriteKeptCells(rows: View, cols: View, boxes: View, pos: int, x: char)
    requires Synced(rows, cols, boxes) && 0 <= pos < GridSize && RowAt(rows, pos) == Unknown
    ensures Kept(rows, PutRow(rows, pos, x))
  {
    WriteKeepsSync(rows, cols, boxes, pos, x);
  }

  /** The contents of pos in every view, as the flat row-major grid. */
  function Cells(rows: View): (cells: seq<char>)
    requires Shaped(rows)
    ensures |cells| == GridSize
    ensures forall pos | 0 <= pos < GridSize :: cells[pos] == RowAt(rows, pos)
  {
    seq(GridSize, pos requires 0 <= pos < GridSize => RowAt(rows, pos))
  }

  // ---------------------------------------------------------------------------
  // The search order of Grid::solve.

  /** Boxes the search fills; 0, 4 and 8 are seeded before it starts. */
  predicate OffDiagonal(box: int)
  {
    box == 1 || box == 2 || box == 3 || box == 5 || box == 6 || box == 7
  }

  function BoxRank(box: int): int
  {
    if box <= 3 then box - 1 else box - 2
  }

  /** Number of (box, value) pairs placed before (box, value) in search order. */
  function Step(box: int, value: int): (k: int)
    requires OffDiagonal(box) && 1 <= value <= 9
    ensures 0 <= k < 54
  {
    6 * (value - 1) + BoxRank(box)
  }

  /** The next box to fill: 3 is followed by 5, 7 by 1, others by box + 1. */
  function NextBox(box: int): int
  {
    if box == 3 then 5 else if box == 7 then 1 else box + 1
  }

  /** The value moves on after box 7. */
  function NextValue(box: int, value: int): int
  {
    if box == 7 then value + 1 else value
  }

  /**
   * The search visits the 54 (box, value) pairs one after the other: the
   * successor of every pair but (7, 9) is again a pair and is one step later.
   */
  lemma NextIsNextStep(box: int, value: int)
    requires OffDiagonal(box) && 1 <= value <= 9 && !(box == 7 && value == 9)
    ensures OffDiagonal(NextBox(box)) && 1 <= NextValue(box, value) <= 9
    ensures Step(NextBox(box), NextValue(box, value)) == Step(box, value) + 1
  {
  }

  /** (7, 9) is the last pair, (1, 1) the first, and no two pairs share a step. */
  lemma StepOrder(box: int, value: int, box': int, value': int)
    requires OffDiagonal(box) && 1 <= value <= 9 && OffDiagonal(box') && 1 <= value' <= 9
    ensures Step(1, 1) == 0 && Step(7, 9) == 53
    ensures Step(box, value) == Step(box', value') ==> box == box' && value == value'
  {
  }

  // ---------------------------------------------------------------------------
  // The search invariant.

  /** Every position holds '?' or a digit. */
  ghost predicate Legal(rows: View)
    requires Shaped(rows)
  {
    forall pos | 0 <= pos < GridSize :: RowAt(rows, pos) == Unknown || IsDigit(RowAt(rows, pos))
  }

  ghost predicate NoneRepeats(v: View)
    requires Shaped(v)
  {
    forall i | 0 <= i < 9 :: NoRepeats(v[i])
  }

  /** Boxes 0, 4 and 8 are in place before the search starts. */
  ghost predicate DiagonalComplete(boxes: View)
    requires Shaped(boxes)
  {
    forall b | 0 <= b < 9 && !OffDiagonal(b) :: Complete(boxes[b])
  }

  /**
   * The state of the search after its first k placements: the views agree
   * and repeat no digit; the off-diagonal box b holds v exactly when (b, v)
   * is among the first k pairs; a cell of an off-diagonal box is marked
   * known exactly when it is filled; the diagonal boxes are complete.
   */
  ghost predicate Placed(rows: View, cols: View, boxes: View, known: seq<bool>, k: int)
  {
    Synced(rows, cols, boxes) && |known| == GridSize &&
    Legal(rows) &&
    NoneRepeats(rows) && NoneRepeats(cols) && NoneRepeats(boxes) &&
    (forall b, v | OffDiagonal(b) && 1 <= v <= 9 :: Digit(v) in boxes[b] <==> Step(b, v) < k) &&
    (forall pos | 0 <= pos < GridSize && OffDiagonal(BoxOf(pos)) :: known[pos] <==> RowAt(rows, pos) != Unknown) &&
    DiagonalComplete(boxes)
  }

  /** The cell pos may take value: it is in the box, free, and the value is new to its row and column. */
  ghost predicate Candidate(rows: View, cols: View, known: seq<bool>, box: int, value: int, pos: int)
    requires Shaped(rows) && Shaped(cols) && |known| == GridSize && 1 <= value <= 9
  {
    0 <= pos < GridSize && BoxOf(pos) == box && !known[pos] &&
    Digit(value) !in rows[MapRow(pos)] && Digit(value) !in cols[MapColumn(pos)]
  }

  /** The candidates for `value` among the first n slots of `box`, in raster order. */
  ghost function CandidateCells(rows: View, cols: View, known: seq<bool>, box: int, value: int, n: nat): seq<int>
    requires Shaped(rows) && Shaped(cols) && |known| == GridSize && 1 <= value <= 9 && n <= ContainerSize
  {
    if n == 0 then []
    else CandidateCells(rows, cols, known, box, value, n - 1) +
         (if Candidate(rows, cols, known, box, value, BoxCell(box, n - 1)) then [BoxCell(box, n - 1)] else [])
  }

  /**
   * CandidateCells holds candidates only, holds every candidate slot of the
   * first n, lies before slot n and is strictly increasing.
   */
  lemma CandidateCellsSpec(rows: View, cols: View, known: seq<bool>, box: int, value: int, n: nat)
    requires Shaped(rows) && Shaped(cols) && |known| == GridSize && 1 <= value <= 9 && n <= ContainerSize
    ensures var cells := CandidateCells(rows, cols, known, box, value, n);
      (forall j | 0 <= j < |cells| :: Candidate(rows, cols, known, box, value, cells[j])) &&
      (forall i | 0 <= i < n && Candidate(rows, cols, known, box, value, BoxCell(box, i)) :: BoxCell(box, i) in cells) &&
      (forall j | 0 <= j < |cells| :: cells[j] < BoxCell(box, n)) &&
      (forall j, j' | 0 <= j < j' < |cells| :: cells[j] < cells[j'])
  {
    CandidateCellsSound(rows, cols, known, box, value, n);
    CandidateCellsIncreasing(rows, cols, known, box, value, n);
    CandidateCellsAll(rows, cols, known, box, value, n);
  }

  /** CandidateCells holds candidates only. */
  lemma {:induction false} CandidateCellsSound(rows: View, cols: View, known: seq<bool>, box: int, value: int, n: nat)
    requires Shaped(rows) && Shaped(cols) && |known| == GridSize && 1 <= value <= 9 && n <= ContainerSize
    ensures var cells := CandidateCells(rows, cols, known, box, value, n);
      forall j | 0 <= j < |cells| :: Candidate(rows, cols, known, box, value, cells[j])
  {
    if n > 0 {
      var prev, cells := CandidateCells(rows, cols, known, box, value, n - 1), CandidateCells(rows, cols, known, box, value, n);
      CandidateCellsSound(rows, cols, known, box, value, n - 1);
      forall j | 0 <= j < |cells| ensures Candidate(rows, cols, known, box, value, cells[j]) {
        if j < |prev| {
          CandidateCellsPrefix(rows, cols, known, box, value, n, j);
        } else {
          CandidateCellsTail(rows, cols, known, box, value, n, j);
        }
      }
    }
  }

  /** CandidateCells lies before slot n and is strictly increasing. */
  lemma {:induction false} CandidateCellsIncreasing(rows: View, cols: View, known: seq<bool>, box: int, value: int, n: nat)
    requires Shaped(rows) && Shaped(cols) && |known| == GridSize && 1 <= value <= 9 && n <= ContainerSize
    ensures var cells := CandidateCells(rows, cols, known, box, value, n);
      (forall j | 0 <= j < |cells| :: cells[j] < BoxCell(box, n)) &&
      (forall j, j' | 0 <= j < j' < |cells| :: cells[j] < cells[j'])
  {
    if n > 0 {
      var prev, cells := CandidateCells(rows, cols, known, box, value, n - 1), CandidateCells(rows, cols, known, box, value, n);
      CandidateCellsIncreasing(rows, cols, known, box, value, n - 1);
      BoxCellIncreasing(box, n - 1, n);
      var last := BoxCell(box, n - 1);
      forall j | 0 <= j < |cells| ensures cells[j] == if j < |prev| then prev[j] else last {
        if j < |prev| {
          CandidateCellsPrefix(rows, cols, known, box, value, n, j);
        } else {
          CandidateCellsTail(rows, cols, known, box, value, n, j);
        }
      }
      CandidateCellsLength(rows, cols, known, box, value, n);
      ExtendIncreasing(prev, cells, last, BoxCell(box, n));
    }
  }

  /** Each slot adds at most one entry to CandidateCells. */
  lemma CandidateCellsLength(rows: View, cols: View, known: seq<bool>, box: int, value: int, n: nat)
    requires Shaped(rows) && Shaped(cols) && |known| == GridSize && 1 <= value <= 9 && 0 < n <= ContainerSize
    ensures |CandidateCells(rows, cols, known, box, value, n - 1)| <= |CandidateCells(rows, cols, known, box, value, n)|
            <= |CandidateCells(rows, cols, known, box, value, n - 1)| + 1
  {
  }

  /** Appending at most one value above an increasing sequence keeps it increasing. */
  lemma ExtendIncreasing(prev: seq<int>, cells: seq<int>, last: int, bound: int)
    requires (forall j | 0 <= j < |prev| :: prev[j] < last) && last < bound
    requires forall j, j' | 0 <= j < j' < |prev| :: prev[j] < prev[j']
    requires |prev| <= |cells| <= |prev| + 1
    requires forall j | 0 <= j < |cells| :: cells[j] == if j < |prev| then prev[j] else last
    ensures forall j | 0 <= j < |cells| :: cells[j] < bound
    ensures forall j, j' | 0 <= j < j' < |cells| :: cells[j] < cells[j']
  {
  }

  /** CandidateCells up to slot n extends CandidateCells up to slot n - 1. */
  lemma CandidateCellsPrefix(rows: View, cols: View, known: seq<bool>, box: int, value: int, n: nat, j: int)
    requires Shaped(rows) && Shaped(cols) && |known| == GridSize && 1 <= value <= 9 && 0 < n <= ContainerSize
    requires 0 <= j < |CandidateCells(rows, cols, known, box, value, n - 1)|
    ensures j < |CandidateCells(rows, cols, known, box, value, n)|
    ensures CandidateCells(rows, cols, known, box, value, n)[j] == CandidateCells(rows, cols, known, box, value, n - 1)[j]
  {
  }

  /** The entry CandidateCells gains at slot n - 1 is that slot's cell, and a candidate. */
  lemma CandidateCellsTail(rows: View, cols: View, known: seq<bool>, box: int, value: int, n: nat, j: int)
    requires Shaped(rows) && Shaped(cols) && |known| == GridSize && 1 <= value <= 9 && 0 < n <= ContainerSize
    requires |CandidateCells(rows, cols, known, box, value, n - 1)| <= j < |CandidateCells(rows, cols, known, box, value, n)|
    ensures CandidateCells(rows, cols, known, box, value, n)[j] == BoxCell(box, n - 1)
    ensures Candidate(rows, cols, known, box, value, BoxCell(box, n - 1))
  {
  }

  /** CandidateCells holds every candidate slot among the first n. */
  lemma {:induction false} CandidateCellsAll(rows: View, cols: View, known: seq<bool>, box: int, value: int, n: nat)
    requires Shaped(rows) && Shaped(cols) && |known| == GridSize && 1 <= value <= 9 && n <= ContainerSize
    ensures forall i | 0 <= i < n && Candidate(rows, cols, known, box, value, BoxCell(box, i)) ::
      BoxCell(box, i) in CandidateCells(rows, cols, known, box, value, n)
  {
    if n > 0 {
      CandidateCellsAll(rows, cols, known, box, value, n - 1);
      CandidateCellsGrow(rows, cols, known, box, value, n);
    }
  }

  /** CandidateCells for n slots keeps those for n - 1 and adds slot n - 1 when it is a candidate. */
  lemma CandidateCellsGrow(rows: View, cols: View, known: seq<bool>, box: int, value: int, n: nat)
    requires Shaped(rows) && Shaped(cols) && |known| == GridSize && 1 <= value <= 9 && 0 < n <= ContainerSize
    ensures forall x | x in CandidateCells(rows, cols, known, box, value, n - 1) ::
      x in CandidateCells(rows, cols, known, box, value, n)
    ensures Candidate(rows, cols, known, box, value, BoxCell(box, n - 1)) ==>
      BoxCell(box, n - 1) in CandidateCells(rows, cols, known, box, value, n)
  {
  }

  lemma PutNoRepeats(s: seq<char>, j: int, x: char)
    requires NoRepeats(s) && 0 <= j < |s| && x !in s
    ensures NoRepeats(s[j := x])
  {
    var t := s[j := x];
    forall a, b | 0 <= a < b < |t| && t[a] != Unknown ensures t[a] != t[b] {
      if a == j {
        assert t[b] == s[b];
      } else if b == j {
        assert t[a] == s[a];
      }
    }
  }

  lemma PutNoneRepeats(v: View, i: int, j: int, x: char)
    requires Shaped(v) && NoneRepeats(v) && 0 <= i < 9 && 0 <= j < 9 && x !in v[i]
    ensures NoneRepeats(Put(v, i, j, x))
  {
    PutNoRepeats(v[i], j, x);
    var r := Put(v, i, j, x);
    forall k | 0 <= k < 9 ensures NoRepeats(r[k]) {
      if k != i {
        assert r[k] == v[k];
      }
    }
  }

  /** Adding x to slot j of s where s held '?' adds exactly x to its values. */
  lemma PutIntoUnknown(s: seq<char>, j: int, x: char, y: char)
    requires 0 <= j < |s| && s[j] == Unknown && y != Unknown
    ensures y in s[j := x] <==> y == x || y in s
  {
    if y in s {
      var k :| 0 <= k < |s| && s[k] == y;
      assert k != j;
      assert s[j := x][k] == y;
    }
    if y in s[j := x] && y != x {
      var k :| 0 <= k < |s| && s[j := x][k] == y;
      assert k != j;
      assert s[k] == y;
    }
    assert s[j := x][j] == x;
  }

  /**
   * One placement of Grid::solve: putting the value of the pair (box, value)
   * into a candidate cell and marking it known advances the invariant by one
   * step.
   */
  lemma {:induction false} PlaceStep(rows: View, cols: View, boxes: View, known: seq<bool>,
                                    box: int, value: int, pos: int)
    requires OffDiagonal(box) && 1 <= value <= 9
    requires Placed(rows, cols, boxes, known, Step(box, value))
    requires Candidate(rows, cols, known, box, value, pos)
    ensures Placed(PutRow(rows, pos, Digit(value)), PutCol(cols, pos, Digit(value)),
                   PutBox(boxes, pos, Digit(value)), known[pos := true], Step(box, value) + 1)
  {
    var d, k := Digit(value), Step(box, value);
    var rows', cols', boxes', known' := PutRow(rows, pos, d), PutCol(cols, pos, d), PutBox(boxes, pos, d), known[pos := true];
    WriteKeepsSync(rows, cols, boxes, pos, d);
    forall q | 0 <= q < GridSize ensures RowAt(rows', q) == Unknown || IsDigit(RowAt(rows', q)) {
    }
    // The cell was free, so it held '?' in all three views.
    assert RowAt(rows, pos) == Unknown;
    assert BoxAt(boxes, pos) == Unknown;
    assert d !in boxes[box];
    PutNoneRepeats(rows, MapRow(pos), GetRowIndex(pos), d);
    PutNoneRepeats(cols, MapColumn(pos), GetColumnIndex(pos), d);
    PutNoneRepeats(boxes, box, GetBoxIndex(pos), d);
    forall b, v | OffDiagonal(b) && 1 <= v <= 9 ensures Digit(v) in boxes'[b] <==> Step(b, v) < k + 1 {
      StepOrder(b, v, box, value);
      if b == box {
        PutIntoUnknown(boxes[b], GetBoxIndex(pos), d, Digit(v));
        if Digit(v) == d {
          DigitInjective(v, value);
        }
      } else {
        assert boxes'[b] == boxes[b];
      }
    }
    forall q | 0 <= q < GridSize && OffDiagonal(BoxOf(q)) ensures known'[q] <==> RowAt(rows', q) != Unknown {
    }
    forall b | 0 <= b < 9 && !OffDiagonal(b) ensures Complete(boxes'[b]) {
      assert boxes'[b] == boxes[b];
    }
  }

  /** Writing '?' back into a cell the search filled restores all three views. */
  lemma UndoWrite(rows: View, cols: View, boxes: View, pos: int, x: char)
    requires Synced(rows, cols, boxes) && 0 <= pos < GridSize && RowAt(rows, pos) == Unknown
    ensures PutRow(PutRow(rows, pos, x), pos, Unknown) == rows
    ensures PutCol(PutCol(cols, pos, x), pos, Unknown) == cols
    ensures PutBox(PutBox(boxes, pos, x), pos, Unknown) == boxes
  {
    IndexBounds(pos);
    PutUndo(rows, MapRow(pos), GetRowIndex(pos), x);
    PutUndo(cols, MapColumn(pos), GetColumnIndex(pos), x);
    PutUndo(boxes, BoxOf(pos), GetBoxIndex(pos), x);
  }

  /** A container holding all nine digits in nine slots has no '?' left. */
  lemma AllPresentIsComplete(s: seq<char>)
    requires |s| == 9 && forall v | 1 <= v <= 9 :: Digit(v) in s
    ensures Complete(s) && AllDigitSlots(s)
  {
    PresentIncludesAll(s);
    SubMultisetSameSize(multiset(s), multiset(AllDigits));
    PermutationIsComplete(s);
  }

  /** A 9-slot container of digits none of which repeats is complete. */
  lemma DigitsNoRepeatsComplete(s: seq<char>)
    requires |s| == 9 && AllDigitSlots(s) && NoRepeats(s)
    ensures Complete(s)
  {
    CompleteIffPermutation(s);
  }

  /**
   * After all 54 placements every row, column and box is complete: the
   * search has produced a solved Sudoku.
   */
  lemma PlacedAllIsSolved(rows: View, cols: View, boxes: View, known: seq<bool>)
    requires Placed(rows, cols, boxes, known, 54)
    ensures forall i | 0 <= i < 9 :: Complete(rows[i]) && Complete(cols[i]) && Complete(boxes[i])
  {
    PlacedAllBoxesComplete(rows, cols, boxes, known);
    DigitBoxesDigitLines(rows, cols, boxes);
  }

  /** After the last step every box holds all nine digits. */
  lemma PlacedAllBoxesComplete(rows: View, cols: View, boxes: View, known: seq<bool>)
    requires Placed(rows, cols, boxes, known, 54)
    ensures forall b | 0 <= b < 9 :: Complete(boxes[b]) && AllDigitSlots(boxes[b])
  {
    forall b | 0 <= b < 9 ensures Complete(boxes[b]) && AllDigitSlots(boxes[b]) {
      if OffDiagonal(b) {
        forall v | 1 <= v <= 9 ensures Digit(v) in boxes[b] {
          assert Step(b, v) < 54;
        }
      }
      AllPresentIsComplete(boxes[b]);
    }
  }

  /** Synced views whose boxes hold digits only, and whose lines repeat nothing, have complete lines. */
  lemma DigitBoxesDigitLines(rows: View, cols: View, boxes: View)
    requires Synced(rows, cols, boxes) && NoneRepeats(rows) && NoneRepeats(cols)
    requires forall b | 0 <= b < 9 :: AllDigitSlots(boxes[b])
    ensures forall i | 0 <= i < 9 :: Complete(rows[i]) && Complete(cols[i])
  {
    forall pos | 0 <= pos < GridSize ensures IsDigit(RowAt(rows, pos)) {
      IndexBounds(pos);
      assert IsDigit(boxes[BoxOf(pos)][GetBoxIndex(pos)]);
    }
    forall i | 0 <= i < 9 ensures Complete(rows[i]) && Complete(cols[i]) {
      forall j | 0 <= j < 9 ensures IsDigit(rows[i][j]) && IsDigit(cols[i][j]) {
        var p, q := 9 * i + j, 9 * j + i;
        DivModOfCell(i, j);
        DivModOfCell(j, i);
        assert RowAt(rows, p) == rows[i][j];
        assert ColAt(cols, q) == cols[i][j];
      }
      DigitsNoRepeatsComplete(rows[i]);
      DigitsNoRepeatsComplete(cols[i]);
    }
  }

  // ---------------------------------------------------------------------------
  // Views derived from the rows, and solved grids.

  /** The columns of the grid whose rows are `rows`. */
  function Columns(rows: View): (cols: View)
    requires Shaped(rows)
    ensures Shaped(cols)
    ensures forall c, r | 0 <= c < 9 && 0 <= r < 9 :: cols[c][r] == rows[r][c]
  {
    seq(9, c requires 0 <= c < 9 => seq(9, r requires 0 <= r < 9 => rows[r][c]))
  }

  /** The boxes of the grid whose rows are `rows`, each read in raster order. */
  function Boxes(rows: View): (boxes: View)
    requires Shaped(rows)
    ensures Shaped(boxes)
    ensures forall b, s | 0 <= b < 9 && 0 <= s < 9 ::
      boxes[b][s] == rows[3 * (b / 3) + s / 3][3 * (b % 3) + s % 3]
  {
    seq(9, b requires 0 <= b < 9 =>
      seq(9, s requires 0 <= s < 9 => rows[3 * (b / 3) + s / 3][3 * (b % 3) + s % 3]))
  }

  /** Box 3 * bi + bj, listed cell by cell from its top-left cell (3 * bi, 3 * bj). */
  lemma BoxFromCorner(rows: View, bi: int, bj: int)
    requires Shaped(rows) && 0 <= bi < 3 && 0 <= bj < 3
    ensures var r, c := 3 * bi, 3 * bj;
      Boxes(rows)[3 * bi + bj] ==
      [rows[r][c], rows[r][c + 1], rows[r][c + 2],
       rows[r + 1][c], rows[r + 1][c + 1], rows[r + 1][c + 2],
       rows[r + 2][c], rows[r + 2][c + 1], rows[r + 2][c + 2]]
  {
    var b := 3 * bi + bj;
    assert b / 3 == bi && b % 3 == bj;
  }

  /** Row and column of a cell in terms of its box and box slot. */
  lemma BoxCoordinates(pos: int)
    requires 0 <= pos < GridSize
    ensures MapRow(pos) == 3 * (BoxOf(pos) / 3) + GetBoxIndex(pos) / 3
    ensures MapColumn(pos) == 3 * (BoxOf(pos) % 3) + GetBoxIndex(pos) % 3
  {
    BoxCellOfPosition(pos);
    BoxCellInverse(BoxOf(pos), GetBoxIndex(pos));
    var b, s := BoxOf(pos), GetBoxIndex(pos);
    DivModOfCell(3 * (b / 3) + s / 3, 3 * (b % 3) + s % 3);
  }

  /** Columns and boxes built from the rows agree with them. */
  lemma {:induction false} DerivedViewsSynced(rows: View)
    requires Shaped(rows)
    ensures Synced(rows, Columns(rows), Boxes(rows))
  {
    forall pos | 0 <= pos < GridSize
      ensures BoxAt(Boxes(rows), pos) == RowAt(rows, pos)
    {
      BoxCoordinates(pos);
    }
  }

  /** Views that agree are determined by the rows. */
  lemma {:induction false} SyncedDetermined(rows: View, cols: View, boxes: View)
    requires Synced(rows, cols, boxes)
    ensures cols == Columns(rows) && boxes == Boxes(rows)
  {
    forall c, r | 0 <= c < 9 && 0 <= r < 9 ensures cols[c][r] == Columns(rows)[c][r] {
      DivModOfCell(r, c);
      assert ColAt(cols, 9 * r + c) == RowAt(rows, 9 * r + c);
    }
    forall b, s | 0 <= b < 9 && 0 <= s < 9 ensures boxes[b][s] == Boxes(rows)[b][s] {
      var pos := BoxCell(b, s);
      BoxCellInverse(b, s);
      BoxCoordinates(pos);
      assert BoxAt(boxes, pos) == RowAt(rows, pos);
    }
    assert forall c | 0 <= c < 9 :: cols[c] == Columns(rows)[c];
    assert forall b | 0 <= b < 9 :: boxes[b] == Boxes(rows)[b];
  }

  /** The rows of a flat row-major grid of 81 cells. */
  function RowsOf(cells: seq<char>): (rows: View)
    requires |cells| == GridSize
    ensures Shaped(rows)
    ensures forall pos | 0 <= pos < GridSize :: RowAt(rows, pos) == cells[pos]
  {
    seq(9, r requires 0 <= r < 9 => cells[9 * r .. 9 * r + 9])
  }

  lemma {:induction false} RowsOfCells(rows: View)
    requires Shaped(rows)
    ensures RowsOf(Cells(rows)) == rows
  {
    var r' := RowsOf(Cells(rows));
    forall r, c | 0 <= r < 9 && 0 <= c < 9 ensures r'[r][c] == rows[r][c] {
      DivModOfCell(r, c);
      assert RowAt(r', 9 * r + c) == RowAt(rows, 9 * r + c);
    }
    assert forall r | 0 <= r < 9 :: r'[r] == rows[r];
  }

  /** A solved Sudoku: every row, column and box of the 81 cells is complete. */
  ghost predicate Solved(cells: seq<char>)
  {
    |cells| == GridSize &&
    var rows := RowsOf(cells);
    forall i | 0 <= i < 9 :: Complete(rows[i]) && Complete(Columns(rows)[i]) && Complete(Boxes(rows)[i])
  }

  /** Views in step whose containers are all complete hold a solved grid. */
  lemma SyncedCompleteIsSolved(rows: View, cols: View, boxes: View)
    requires Synced(rows, cols, boxes)
    ensures Solved(Cells(rows)) <==>
      forall i | 0 <= i < 9 :: Complete(rows[i]) && Complete(cols[i]) && Complete(boxes[i])
  {
    SyncedDetermined(rows, cols, boxes);
    RowsOfCells(rows);
  }

  /**
   * A finished search leaves a solved grid, and every cell outside the
   * diagonal boxes marked known: the flags set while placing are still set.
   */
  lemma {:induction false} SearchSolves(rows: View, cols: View, boxes: View, known: seq<bool>)
    requires Placed(rows, cols, boxes, known, 54)
    ensures Solved(Cells(rows))
    ensures forall pos | 0 <= pos < GridSize && OffDiagonal(BoxOf(pos)) :: known[pos]
  {
    PlacedAllIsSolved(rows, cols, boxes, known);
    SyncedCompleteIsSolved(rows, cols, boxes);
    forall pos | 0 <= pos < GridSize && OffDiagonal(BoxOf(pos)) ensures known[pos] {
      IndexBounds(pos);
      assert RowAt(rows, pos) in rows[MapRow(pos)];
    }
  }

  // ---------------------------------------------------------------------------
  // The seeded start of Grid::generate_solved_puzzle.

  /** A shuffle of the values 1..9 (the contents of `values` after std::shuffle). */
  predicate IsShuffle(s: seq<int>)
  {
    |s| == 9 && (forall k | 0 <= k < 9 :: 1 <= s[k] <= 9) &&
    forall i, j | 0 <= i < j < 9 :: s[i] != s[j]
  }

  /** One shuffle for each of the diagonal boxes 0, 4 and 8. */
  predicate IsSeed(shuffles: seq<seq<int>>)
  {
    |shuffles| == 3 && forall t | 0 <= t < 3 :: IsShuffle(shuffles[t])
  }

  /** A cell of the seeded matrix: its diagonal box's shuffle value, else '?'. */
  function SeedCell(shuffles: seq<seq<int>>, r: int, c: int): char
    requires IsSeed(shuffles) && 0 <= r < 9 && 0 <= c < 9
  {
    if r / 3 == c / 3 then Digit(shuffles[r / 3][3 * (r % 3) + c % 3]) else Unknown
  }

  /**
   * The matrix before the search: box 4t holds the t-th shuffle in raster
   * order, every other cell is '?'.
   */
  function SeedRows(shuffles: seq<seq<int>>): (rows: View)
    requires IsSeed(shuffles)
    ensures Shaped(rows)
    ensures forall r, c | 0 <= r < 9 && 0 <= c < 9 :: rows[r][c] == SeedCell(shuffles, r, c)
  {
    seq(9, r requires 0 <= r < 9 => seq(9, c requires 0 <= c < 9 => SeedCell(shuffles, r, c)))
  }

  lemma Split3(t: int, a: int)
    requires 0 <= t < 3 && 0 <= a < 3
    ensures (3 * t + a) / 3 == t && (3 * t + a) % 3 == a
  {
  }

  lemma ShuffleDigitsComplete(s: seq<int>)
    requires IsShuffle(s)
    ensures Complete(seq(9, k requires 0 <= k < 9 => Digit(s[k])))
  {
    var t := seq(9, k requires 0 <= k < 9 => Digit(s[k]));
    assert Distinct(t) by {
      forall i, j | 0 <= i < j < 9 ensures t[i] != t[j] {
        if t[i] == t[j] {
          DigitInjective(s[i], s[j]);
        }
      }
    }
    assert AllDigitSlots(t);
    DistinctDigitsArePermutation(t);
    PermutationIsComplete(t);
  }

  /** Two seeded cells in one row or one column agree only where they coincide. */
  lemma SeedCellsDiffer(shuffles: seq<seq<int>>, r: int, c: int, r': int, c': int)
    requires IsSeed(shuffles) && 0 <= r < 9 && 0 <= c < 9 && 0 <= r' < 9 && 0 <= c' < 9
    requires r == r' || c == c'
    requires SeedCell(shuffles, r, c) != Unknown && SeedCell(shuffles, r, c) == SeedCell(shuffles, r', c')
    ensures r == r' && c == c'
  {
    var t := r / 3;
    assert r' / 3 == c' / 3;
    var i, i' := 3 * (r % 3) + c % 3, 3 * (r' % 3) + c' % 3;
    assert r' / 3 == t;
    DigitInjective(shuffles[t][i], shuffles[t][i']);
    assert i == i';
    assert r % 3 == r' % 3 && c % 3 == c' % 3;
  }

  lemma SeedRowsNoRepeats(shuffles: seq<seq<int>>, r: int)
    requires IsSeed(shuffles) && 0 <= r < 9
    ensures NoRepeats(SeedRows(shuffles)[r])
  {
    var row := SeedRows(shuffles)[r];
    forall i, j | 0 <= i < j < 9 && row[i] != Unknown ensures row[i] != row[j] {
      if row[i] == row[j] {
        SeedCellsDiffer(shuffles, r, i, r, j);
      }
    }
  }

  lemma SeedColumnsNoRepeats(shuffles: seq<seq<int>>, c: int)
    requires IsSeed(shuffles) && 0 <= c < 9
    ensures NoRepeats(Columns(SeedRows(shuffles))[c])
  {
    var col := Columns(SeedRows(shuffles))[c];
    forall i, j | 0 <= i < j < 9 && col[i] != Unknown ensures col[i] != col[j] {
      if col[i] == col[j] {
        SeedCellsDiffer(shuffles, i, c, j, c);
      }
    }
  }

  /** Box 4t of the seeded matrix is the t-th shuffle; the others are empty. */
  lemma SeedBox(shuffles: seq<seq<int>>, b: int)
    requires IsSeed(shuffles) && 0 <= b < 9
    ensures NoRepeats(Boxes(SeedRows(shuffles))[b])
    ensures !OffDiagonal(b) ==> Complete(Boxes(SeedRows(shuffles))[b])
    ensures OffDiagonal(b) ==> forall s | 0 <= s < 9 :: Boxes(SeedRows(shuffles))[b][s] == Unknown
  {
    if !OffDiagonal(b) {
      SeedDiagonalBox(shuffles, b);
    } else {
      SeedOffDiagonalBox(shuffles, b);
    }
  }

  /** A diagonal box of the seeded matrix holds its shuffle: every digit once. */
  lemma SeedDiagonalBox(shuffles: seq<seq<int>>, b: int)
    requires IsSeed(shuffles) && 0 <= b < 9 && !OffDiagonal(b)
    ensures Complete(Boxes(SeedRows(shuffles))[b]) && NoRepeats(Boxes(SeedRows(shuffles))[b])
  {
    var box := Boxes(SeedRows(shuffles))[b];
    var bt := b / 3;
    SeedBoxCells(shuffles, b);
    var d := seq(9, k requires 0 <= k < 9 => Digit(shuffles[bt][k]));
    assert box == d;
    ShuffleDigitsComplete(shuffles[bt]);
    CompleteIffPermutation(d);
  }

  /** A box off the diagonal of the seeded matrix is all '?'. */
  lemma SeedOffDiagonalBox(shuffles: seq<seq<int>>, b: int)
    requires IsSeed(shuffles) && 0 <= b < 9 && OffDiagonal(b)
    ensures forall s | 0 <= s < 9 :: Boxes(SeedRows(shuffles))[b][s] == Unknown
    ensures NoRepeats(Boxes(SeedRows(shuffles))[b])
  {
    SeedBoxCells(shuffles, b);
    assert NoRepeats(Boxes(SeedRows(shuffles))[b]);
  }

  /** Slot s of box b of the seeded matrix: the shuffle's digit on the diagonal, '?' elsewhere. */
  lemma SeedBoxCells(shuffles: seq<seq<int>>, b: int)
    requires IsSeed(shuffles) && 0 <= b < 9
    ensures forall s | 0 <= s < 9 ::
      Boxes(SeedRows(shuffles))[b][s] == if b / 3 == b % 3 then Digit(shuffles[b / 3][s]) else Unknown
  {
    var box := Boxes(SeedRows(shuffles))[b];
    var bt, bm := b / 3, b % 3;
    forall s | 0 <= s < 9
      ensures box[s] == if bt == bm then Digit(shuffles[bt][s]) else Unknown
    {
      Split3(bt, s / 3);
      Split3(bm, s % 3);
    }
  }

  /** The seeded matrix satisfies the search invariant before any placement. */
  lemma SeedPlaced(shuffles: seq<seq<int>>, known: seq<bool>)
    requires IsSeed(shuffles) && |known| == GridSize
    requires forall pos | 0 <= pos < GridSize && OffDiagonal(BoxOf(pos)) :: !known[pos]
    ensures Placed(SeedRows(shuffles), Columns(SeedRows(shuffles)), Boxes(SeedRows(shuffles)), known, 0)
  {
    DerivedViewsSynced(SeedRows(shuffles));
    SeedNoneRepeats(shuffles);
    SeedBoxesPlaced(shuffles);
    SeedKnown(shuffles, known);
  }

  /** No row, column or box of the seeded grid repeats a digit. */
  lemma SeedNoneRepeats(shuffles: seq<seq<int>>)
    requires IsSeed(shuffles)
    ensures NoneRepeats(SeedRows(shuffles)) && NoneRepeats(Columns(SeedRows(shuffles)))
    ensures NoneRepeats(Boxes(SeedRows(shuffles)))
  {
    var boxes := Boxes(SeedRows(shuffles));
    forall i | 0 <= i < 9 ensures NoRepeats(SeedRows(shuffles)[i]) && NoRepeats(Columns(SeedRows(shuffles))[i]) {
      SeedRowsNoRepeats(shuffles, i);
      SeedColumnsNoRepeats(shuffles, i);
    }
    forall i | 0 <= i < 9 ensures NoRepeats(boxes[i]) {
      SeedBox(shuffles, i);
    }
  }

  /** The seeded grid has complete diagonal boxes and no digit in any other box. */
  lemma SeedBoxesPlaced(shuffles: seq<seq<int>>)
    requires IsSeed(shuffles)
    ensures DiagonalComplete(Boxes(SeedRows(shuffles)))
    ensures forall b, v | OffDiagonal(b) && 1 <= v <= 9 :: Digit(v) !in Boxes(SeedRows(shuffles))[b]
  {
    var boxes := Boxes(SeedRows(shuffles));
    forall b | 0 <= b < 9 && !OffDiagonal(b) ensures Complete(boxes[b]) {
      SeedBox(shuffles, b);
    }
    forall b, v | OffDiagonal(b) && 1 <= v <= 9 ensures Digit(v) !in boxes[b] {
      SeedBox(shuffles, b);
    }
  }

  /** Every seeded cell is a digit or '?', and the cells outside the diagonal boxes are '?'. */
  lemma SeedKnown(shuffles: seq<seq<int>>, known: seq<bool>)
    requires IsSeed(shuffles) && |known| == GridSize
    requires forall pos | 0 <= pos < GridSize && OffDiagonal(BoxOf(pos)) :: !known[pos]
    ensures Legal(SeedRows(shuffles))
    ensures forall pos | 0 <= pos < GridSize && OffDiagonal(BoxOf(pos)) ::
      known[pos] <==> RowAt(SeedRows(shuffles), pos) != Unknown
  {
    var rows := SeedRows(shuffles);
    var boxes := Boxes(rows);
    DerivedViewsSynced(rows);
    forall pos | 0 <= pos < GridSize && OffDiagonal(BoxOf(pos)) ensures RowAt(rows, pos) == Unknown {
      IndexBounds(pos);
      SeedBox(shuffles, BoxOf(pos));
      assert BoxAt(boxes, pos) == RowAt(rows, pos);
    }
  }
}

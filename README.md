# tsudoku in Dafny

A model of the board engine of tsudoku, a terminal Sudoku game written in C++ with a partial
Rust port, together with the smaller cores around that engine. Each part is proved against a
specification.

- **Container** (`container.dfy`) is a class over a 9-slot `array<char>`. It holds one row,
  column or box. Its slots hold `'1'..'9'` or `'?'`.
- **Digits** (`digits.dfy`) is the pure theory behind `Container::evaluate`. For nine slots,
  "no `'?'` and every digit present" is the same as "a permutation of `"123456789"`", and the
  same again as "nine distinct digits".
- **Positions** (`positions.dfy`) is the grid index arithmetic (`map_row`, `map_column`,
  `map_box`, `get_row_index`, `get_column_index`, `get_box_index`). It proves that a position
  is determined by its (box, slot) pair and by its (row, column) pair.
- **Board** (`board.dfy`) holds the pure views of a grid: rows, columns and boxes as
  sequences, the writes that `set_value` performs on each, and what the backtracking search
  keeps true. The search runs over the (box, value) steps 1→2→3→5→6→7 with value+1 after box
  7, for 54 steps. The module also proves that a grid whose three views agree is solved
  exactly when every row, column and box is complete. Finally it covers the seeded start of
  the generator.
- **Grid** (`grid.dfy`) is the `Grid` class. It owns 9 row, 9 column and 9 box containers
  and a `known` flag array over the same 81 cells. It models:
  - `set_value`, `at`, `is_known`, `evaluate` and `create_map`;
  - the recursive `solve`, with its queue of legal cells and its undo;
  - `generate_solved_puzzle`;
  - both `set_starting_positions`;
  - both constructors.

  The random shuffles are inputs.
- **Displays** (`display_map.dfy`) is the C++ `Sudoku` class's grid↔display maps
  (`create_map`), the saved-game grid extraction and the colour-code character decoder.
- **SudokuGame** (`sudoku_rs.dfy`) is the Rust `Sudoku::create_maps` and the initial state
  that `Sudoku::new` builds.
- **Csv** (`csv.dfy`) is the text format of a saved game (`csv::write` and the parsing in
  `csv::read`), with the round trips between the two.
- **Terminal** and **Pancurses** (`terminal.dfy`) cover the Rust terminal helpers:
  - the `Cell` value type;
  - the colour-pair codes and `decode_color_pair`;
  - the `getch` key translation and the `curs_set` levels;
  - the edit loop of `getnstr`. Its counter starts at the target's UTF-8 byte length (`String::len`) and moves by one per character pushed or popped. So for a non-ASCII target it is not the number of characters held.
- **Menus**, **MainMenus**, **DifficultyMenus** and **InGameMenus** (`menus.dfy`,
  `main_menu.dfy`, `difficulty_menu.dfy`, `in_game_menu.dfy`) are the C++ menus. They cover
  the saturating `++`/`--` operators, the window-size requirement, the selection loops over
  the keys that `getch` returns, and the word wrap of `screen_reader`.
- **RustMenus** (`menu_rs.dfy`) is the Rust main menu: its option enumeration, its up/down
  transitions, its selection loop and its `set_WINDOW_REQ`.

A key stream the player would type is a sequence parameter. A selection loop whose keys run out
before the key that ends it returns `None`: the game would go on waiting.

## Model

| member | source | states |
|---|---|---|
| Containers.Container.constructor | src/Container.cpp:8-12 | The default constructor gives nine slots, all `'?'`. |
| Containers.Container.Copy | src/Container.cpp:20-24 | The array constructor copies its argument slot for slot into a fresh array. |
| Containers.Container.At | src/Container.cpp:32-34 | `at(i)` returns slot i and changes nothing. |
| Containers.Container.SetValue | src/Container.cpp:69-71 | `set_value(i, v)` makes the contents equal to the old contents with only slot i replaced by v. |
| Containers.Container.ValueExists | src/Container.cpp:52-60 | True exactly when some slot equals the converted value. The converted value is `'?'` itself for `'?'` and `'0'+d` otherwise. The array is unchanged. |
| Containers.Container.Evaluate | src/Container.cpp:79-85 | True exactly when the slots are complete: no `'?'` and every digit 1..9 present. The array is unchanged. |
| Digits.Converted | src/Container.cpp:52-59 | The character compared against: `'?'` for `'?'`, the digit character for 1..9, and otherwise `(d + '0') mod 256`. |
| Digits.DigitsAreAllDigits | include/misc.hpp:25 | `"123456789"` is nine distinct digit slots, and slot i is the digit i+1. |
| Digits.InAllDigits | include/misc.hpp:25 | A character is in `"123456789"` exactly when it is a digit. |
| Digits.CompleteIsPermutation | src/Container.cpp:79-85 | A complete 9-slot container is a permutation of `"123456789"`. |
| Digits.DistinctDigitsArePermutation | src/Container.cpp:79-85 | Nine distinct digits are a permutation of `"123456789"`. |
| Digits.PermutationIsComplete | src/Container.cpp:79-85 | A permutation of `"123456789"` is complete, holds only digits and has no repeats. |
| Digits.CompleteIffPermutation | src/Container.cpp:79-85 | For nine slots, complete ⇔ a permutation of `"123456789"` ⇔ nine distinct digits (both directions). |
| Misc.Clues | include/misc.hpp:43 | The clue count of a difficulty level is its enum value: 60, 45, 30 or 17. It lies in 17..60. |
| Misc.CluesDecrease | include/misc.hpp:43 | The levels in declaration order reveal strictly fewer clues. |
| Positions.MapRow | src/Grid.cpp:464-466 | On the board the row is in [0,9), and the position lies among the nine positions of that row. |
| Positions.MapColumn | src/Grid.cpp:474-476 | The column is in [0,9), and a position is nine times its row plus its column. |
| Positions.GetRowIndex | src/Grid.cpp:529-546 | The slot of a position in its row container is in [0,9) and equals its column. |
| Positions.GetColumnIndex | src/Grid.cpp:554-556 | The slot of a position in its column container equals its row, which is in [0,9) on the board. |
| Positions.GetBoxIndex | src/Grid.cpp:566-570 | The slot of a position in its box container is in [0,9) and equals `3*(row%3) + column%3`, although the source names the two intermediate values the other way round. |
| Positions.MapBox | src/Grid.cpp:489-521 | `map_box(r, c)` is in [0,9). On the board it is `3*(r/3) + c/3`. |
| Positions.IndexBounds | src/Grid.cpp:464-570 | Every index function is in [0,9). `map_row` equals `get_column_index`, and `map_column` equals `get_row_index`. |
| Positions.RowColumnDetermine | src/Grid.cpp:464-476 | A position is `9*map_row + map_column`. |
| Positions.BoxCellIncreasing | src/Grid.cpp:566-570 | Later slots of a box are later positions (raster order). |
| Positions.BoxCellInverse | src/Grid.cpp:489-570 | The cell at (box, slot) lies on the board, in that box and at that slot. |
| Positions.BoxCellOfPosition | src/Grid.cpp:489-570 | Every position is the cell at its own (box, `get_box_index`) pair. |
| Positions.BoxSlotInjective | src/Grid.cpp:489-570 | Two positions with the same box and box slot are equal. Box slots never collide. |
| Positions.RowSlotInjective | src/Grid.cpp:529-556 | Two positions with the same row and row slot are equal. |
| Board.WriteKeepsSync | src/Grid.cpp:579-597 | Writing x at pos into the row, column and box views keeps the three views in agreement. pos then holds x, and every other position is unchanged. |
| Board.PutUndo | src/Grid.cpp:579-597 | Writing back the old value of a slot restores the view. |
| Board.BlankSynced | src/Container.cpp:8-12 | Three blank views agree. |
| Board.BlankCells | src/Container.cpp:8-12 | Every cell of a blank board is `'?'`. |
| Board.WriteKeptCells | src/Grid.cpp:579-597 | A write into an unknown cell keeps every digit already on the board. |
| Board.Cells | src/Grid.cpp:402-406 | The 81 row-major cells of a row view: cell pos is row pos/9, slot pos%9. |
| Board.Step | src/Grid.cpp:302-305 | The rank of a (box, value) pair in the search order lies in [0,54). |
| Board.NextIsNextStep | src/Grid.cpp:302-305 | The next (box, value) pair is an off-diagonal box with a digit value, one step further on. Boxes advance 3→5, 7→1 with value+1, and otherwise box+1. |
| Board.StepOrder | src/Grid.cpp:300-305 | The search starts at rank 0 with (1, 1) and ends at rank 53 with (7, 9). A rank determines its pair. |
| Board.CandidateCellsSpec | src/Grid.cpp:254-276 | The candidate list holds exactly the cells of the box whose row and column lack the value and which are not known, in raster order. |
| Board.CandidateCellsSound | src/Grid.cpp:269-276 | Every listed cell is a legal candidate. |
| Board.CandidateCellsIncreasing | src/Grid.cpp:254-264 | The candidate list is strictly increasing. |
| Board.CandidateCellsAll | src/Grid.cpp:269-276 | Every legal cell among the first n slots is listed. |
| Board.PutNoneRepeats | src/Grid.cpp:269-297 | Writing a value that a line lacks keeps the whole view free of repeats. |
| Board.PlaceStep | src/Grid.cpp:295-298 | Placing the current value in a legal cell of the current box makes one more step of the search placed. |
| Board.UndoWrite | src/Grid.cpp:309-311 | Writing `'?'` back over a write restores all three views. |
| Board.PlacedAllIsSolved | src/Grid.cpp:300 | Once all 54 steps are placed, every row, column and box is complete. |
| Board.PlacedAllBoxesComplete | src/Grid.cpp:300 | Once all 54 steps are placed, every box holds every digit. |
| Board.DigitBoxesDigitLines | src/Grid.cpp:675-684 | On agreeing views whose boxes hold only digits, repeat-free rows and columns are complete. |
| Board.Columns | src/Grid.cpp:368-374 | The column view: column c slot r is row r slot c. |
| Board.Boxes | src/Grid.cpp:376-392 | The box view: box b slot s is the cell the box arithmetic assigns to them. |
| Board.BoxFromCorner | src/Grid.cpp:380-388 | The nine `temp_submat` reads around centre (3bi+1, 3bj+1) are box 3bi+bj, slot by slot. |
| Board.BoxCoordinates | src/Grid.cpp:489-570 | A position's row and column follow from its box and box slot. |
| Board.DerivedViewsSynced | src/Grid.cpp:579-597 | The column and box views derived from a row view agree with it. |
| Board.SyncedDetermined | src/Grid.cpp:579-597 | Views that agree with a row view are the derived ones. |
| Board.RowsOf | src/Grid.cpp:416-422 | The row view of 81 row-major cells. |
| Board.RowsOfCells | src/Grid.cpp:402-406 | Flattening a row view and rebuilding it gives the same view. |
| Board.SyncedCompleteIsSolved | src/Grid.cpp:675-684 | For agreeing views, the grid is solved exactly when every row, column and box container is complete. |
| Board.SearchSolves | src/Grid.cpp:394 | A search that placed all 54 steps from the seed leaves a solved grid. Every off-diagonal cell is known. |
| Board.SeedRows | src/Grid.cpp:339-356 | The seeded matrix: each diagonal box holds its shuffle row by row, and every other cell is `'?'`. |
| Board.ShuffleDigitsComplete | src/Grid.cpp:347-353 | The digits of a shuffle of 1..9 form a complete container. |
| Board.SeedRowsNoRepeats | src/Grid.cpp:347-356 | No seeded row repeats a digit. |
| Board.SeedColumnsNoRepeats | src/Grid.cpp:347-356 | No seeded column repeats a digit. |
| Board.SeedBox | src/Grid.cpp:347-356 | The seeded diagonal boxes are complete. The other boxes are all `'?'`. No box repeats a digit. |
| Board.SeedPlaced | src/Grid.cpp:394 | The seed is the state the search expects before step 0. |
| Board.SeedBoxesPlaced | src/Grid.cpp:347-356 | The diagonal boxes are complete, and the off-diagonal boxes hold no digit. |
| Board.SeedKnown | src/Grid.cpp:347-356 | The seed is legal, and no off-diagonal cell is known. |
| Grids.NewContainers | src/Container.cpp:8-12 | Nine fresh blank containers over distinct arrays. |
| Grids.NewBoard | src/Grid.cpp:21-25 | The 27 default-constructed row, column and box members: fresh, distinct and blank. |
| Grids.WriteCell | src/Grid.cpp:579-597 | `set_value`'s writes: each view becomes the old view with x written at pos. |
| Grids.CandidatePositions | src/Grid.cpp:254-264 | With `positions[0]` starting at `start`, the candidates are `(start + cell i of the box) mod 256`. This is the code as written. |
| Grids.BoxPositions | src/Grid.cpp:254-264 | With `positions[0]` starting at 0, the candidates are exactly the nine cells of the box in raster order. |
| Grids.UninitialisedStartMisplaces | src/Grid.cpp:255-263 | Any nonzero start puts the first candidate off the box's first cell. Start 1 makes a box-2 candidate cell 9, which lies in box 0. |
| Grids.SeedMatrix | src/Grid.cpp:339-356 | The solution matrix before the search is the seed built from the three shuffles. |
| Grids.FillBox | src/Grid.cpp:350-355 | The 3×3 block at (i, i) takes the shuffle row by row, and every other cell is unchanged. |
| Grids.RowsFromMatrix | src/Grid.cpp:364-366 | `soln_rows[i]` is a copy of matrix row i over a fresh array. |
| Grids.ColumnsFromMatrix | src/Grid.cpp:368-374 | `soln_columns[i]` is a copy of matrix column i. |
| Grids.BoxesFromMatrix | src/Grid.cpp:376-392 | `soln_boxes[k]` is a copy of box k of the matrix. |
| Grids.SeedContainers | src/Grid.cpp:339-392 | The seeded matrix and the solution rows, columns and boxes over 27 fresh distinct arrays are the seed's three views. |
| Grids.BoxBand | src/Grid.cpp:379-391 | One pass of the inner loop creates the three boxes whose centres lie on row i. |
| Grids.BoxAround | src/Grid.cpp:380-389 | Box 3bi+bj is copied from `temp_submat`. |
| Grids.Submatrix | src/Grid.cpp:380-388 | `temp_submat` holds the nine cells around a centre, row by row. |
| Grids.FillFromRows | src/Grid.cpp:396-400 | Every `'?'` of the matrix takes the value its solution row holds, and the other cells are unchanged. |
| Grids.Flatten | src/Grid.cpp:402-406 | The result is the row-major cells of the matrix. |
| Grids.AllPositions | src/Grid.cpp:435-436 | `positions[i] == i` for the 81 positions. |
| Grids.PositionOrderFacts | src/Grid.cpp:435-437 | A shuffle of 0..80 holds every position exactly once. |
| Grids.RevealedCount | src/Grid.cpp:439-443 | The first n entries of an order are n different positions. |
| Grids.Reveal | src/Grid.cpp:439-443 | The cells after the reveal loop: 81 of them. |
| Grids.RevealAt | src/Grid.cpp:439-443 | A revealed cell holds its solved value, and every other cell is as before. |
| Grids.KnownExactlyRevealed | src/Grid.cpp:439-455 | Flags set on the first n positions and cleared on the rest mean exactly those n positions are known, n in all. |
| Grids.Grid.constructor | src/Grid.cpp:21-25 | The Grid members: blank agreeing views over 27 fresh arrays, and an empty map. |
| Grids.Grid.FromMatrix | src/Grid.cpp:21-25 | The saved-game constructor: the contents are the matrix, the known cells are exactly the non-`'?'` ones, and the map covers all 81 positions. |
| Grids.Grid.FromDifficulty | src/Grid.cpp:34-38 | The new-game constructor. The seeded cells survive in the solution, and a found solution is solved. Exactly `Clues(diff)` positions are known, and they hold their solution values. The map covers all 81 positions. |
| Grids.Grid.Start | src/Grid.cpp:192-196 | `create_map` then `init_known_positions`: every cell `'?'`, nothing known, and all 81 positions mapped to (row, column). |
| Grids.Grid.SetValue | src/Grid.cpp:579-597 | The grid stays valid (views agree), and the contents are the old contents with only pos set to v. |
| Grids.Grid.At | src/Grid.cpp:640-644 | Returns the value at pos. The column and box views hold the same value. |
| Grids.Grid.IsKnown | src/Grid.cpp:663-665 | Returns the known flag of pos. |
| Grids.Grid.Evaluate | src/Grid.cpp:675-684 | True exactly when every row, column and box container evaluates as complete. That is exactly when the grid is solved. |
| Grids.Grid.CreateMap | src/Grid.cpp:604-610 | Every position i maps to (i/9, i%9). Other keys keep their old entries. |
| Grids.Grid.Solve | src/Grid.cpp:236-316 | On success every step to the end is placed, so the grid is solvable from here. On failure the three views and the known flags are restored. Seeded digits are always kept. |
| Grids.Grid.TryPosition | src/Grid.cpp:284-315 | One queue entry: place at pos, recurse, and undo on failure. Same success/failure contract as `solve`. |
| Grids.Grid.Place | src/Grid.cpp:295-298 | The digit goes into the row, column and box of an unknown pos, pos becomes known, and the next step is placed. |
| Grids.Grid.Unplace | src/Grid.cpp:309-312 | `'?'` goes back into all three containers, and the known flag is restored to its earlier state. |
| Grids.Grid.Mark | src/Grid.cpp:295-312 | x goes into the row, column and box of pos, and the known flag of pos is set to `flag`. |
| Grids.Grid.AvailablePositions | src/Grid.cpp:254-276 | The queue holds exactly the legal cells of the box (sound and complete), in increasing raster order. |
| Grids.Grid.IsAvailable | src/Grid.cpp:269-276 | True exactly when the row and column of pos lack the value and pos is not known. |
| Grids.Grid.GenerateSolvedPuzzle | src/Grid.cpp:325-408 | 81 cells that keep the seed. When found, a solved grid in which every off-diagonal cell is known. Otherwise the seed itself, with the flags unchanged. |
| Grids.Grid.SeedAndSearch | src/Grid.cpp:339-394 | The seeded matrix, and the solution rows after `solve(1, 1)`. When found they are solved, and otherwise unchanged. |
| Grids.Grid.SetStartingPositions | src/Grid.cpp:431-456 | Exactly the first n positions of the order are known, n in all. They hold the generated solution, and the other cells keep their values. |
| Grids.Grid.RevealClues | src/Grid.cpp:439-450 | The first n positions of the order hold their solved values and are known. |
| Grids.Grid.Reveal1 | src/Grid.cpp:440-442 | One reveal: pos takes v and is flagged known. |
| Grids.Grid.ClearOthers | src/Grid.cpp:453-455 | The later positions of the order are not known, and the first n keep their flags. |
| Grids.Grid.SetStartingPositionsFromMatrix | src/Grid.cpp:416-422 | The contents are the matrix, and pos is known exactly when its value is not `'?'`. |
| Grids.Grid.InitKnownPositions | src/Grid.cpp:192-196 | No position is known. |
| Displays.DisplayInBounds | src/Sudoku.cpp:38-51 | Every display cell lies inside the 27×27 display matrix and is ≡ 1 mod 3 in both coordinates. |
| Displays.GridOfDisplay | src/Sudoku.cpp:42-50 | The reverse of the display cell of pos is pos. |
| Displays.DisplayOfGrid | src/Sudoku.cpp:42-50 | Every mapped display cell comes from its reverse position. |
| Displays.DisplayInjective | src/Sudoku.cpp:38-51 | The 81 display cells are distinct. |
| Displays.MapSizesUpto | src/Sudoku.cpp:42-50 | After n steps both maps have exactly n entries. |
| Displays.MapsInverse | src/Sudoku.cpp:42-50 | `display2grid_map` inverts `grid2display_map` in both directions, with 81 entries each. |
| Displays.CounterStep | src/Sudoku.cpp:44-48 | The row/column counters after step i are the display cell of i+1. |
| Displays.Sudoku.constructor | src/Sudoku.cpp:24-36 | Both maps start empty. |
| Displays.Sudoku.CreateMap | src/Sudoku.cpp:38-51 | Both maps gain exactly the 81 grid↔display entries. |
| Displays.Sudoku.SavedGrid | src/Sudoku.cpp:175-181 | `grid[i][j]` is the saved puzzle's value at the display cell of 9i+j. |
| Displays.DecodeColour | src/Sudoku.cpp:268-287 | The decoded colour is one of the pairs or 0. It is nonzero exactly when the character is one of `'u'`, `'r'`, `'y'`, `'b'`, `'g'`. |
| Displays.DecodeInvertsColorCode | src/Sudoku.cpp:268-287 | Decoding the code character of every colour gives that colour back. |
| SudokuGame.CellOf | src/sudoku.rs:101-108 | Cell i is the Cell of the C++ display map, in u8. |
| SudokuGame.CellOfInjective | src/sudoku.rs:101-108 | Distinct positions get distinct Cells. |
| SudokuGame.CreateMaps | src/sudoku.rs:96-120 | The two maps are the 81 grid→Cell entries and their reverses. The u8 counters never overflow. |
| SudokuGame.MapSizes | src/sudoku.rs:101-117 | Both maps have exactly n entries after n insertions. |
| SudokuGame.MapsInverse | src/sudoku.rs:110-117 | `display2grid` and `grid2display` are mutual inverses with 81 entries each. |
| SudokuGame.Filled | src/sudoku.rs:79-80 | A 27×27 matrix with every entry x. |
| SudokuGame.New | src/sudoku.rs:76-88 | An all-zero display matrix, all-`' '` colour codes, the created maps, origin and cursor at `ORIGIN` = (3, 6), and an empty offset map. |
| Csv.Split | src/common.rs:36 | `split` gives at least one part, and no part holds the separator. |
| Csv.JoinSplit | src/common.rs:36-39 | Joining the parts of a split gives the text back. |
| Csv.SplitJoin | src/common.rs:74-77 | Splitting a join of separator-free parts gives the parts back. |
| Csv.TextSnoc | src/common.rs:73-84 | Writing one more row appends its line and `"\n"`. |
| Csv.Write | src/common.rs:73-84 | The file is the rows' lines, each joined by `','` and followed by `"\n"`. |
| Csv.RowCommas | src/common.rs:65-77 | A line of a 27-item row with comma-free items has exactly 26 commas. |
| Csv.WriteLines | src/common.rs:73-84 | Splitting the written text on `'\n'` gives one line per row and then `""`, and the text has `data.len()` newlines. |
| Csv.StripCommas | src/common.rs:25-29 | The colour branch's `retain`: no comma is left. |
| Csv.StripCommasCounts | src/common.rs:28 | Exactly the commas are removed, and every other byte keeps its count. |
| Csv.StripAppend | src/common.rs:28 | Stripping distributes over concatenation, which keeps order. |
| Csv.ColoursRoundTrip | src/common.rs:25-29 | Reading back written colour rows gives each row's characters followed by `'\n'`. |
| Csv.ParseU8 | src/common.rs:39-41 | A success needs a non-empty field. Apart from a leading `'+'` it is all decimal digits. |
| Csv.Decimal | src/common.rs:75 | u8 `to_string`: 1 to 3 decimal digits whose value is n. |
| Csv.ParseDecimal | src/common.rs:39-41 | Parsing inverts u8 `to_string`. |
| Csv.ParseFields | src/common.rs:39-43 | On success, one u8 per field, each the field's parse. |
| Csv.ParseFieldsFails | src/common.rs:40-42 | One unparsable field makes the line fail (the `expect` panic). |
| Csv.ReadNumbers | src/common.rs:35-47 | The numeric branch gives what the line-by-line rule gives: empty lines are skipped, other lines give their numbers then 10, and `None` marks a panic. |
| Csv.NumbersFailed | src/common.rs:39-43 | Once a line fails, the whole read fails. |
| Csv.ParseRow | src/common.rs:39-43 | Parsing the `to_string` of each u8 in a row gives the row. |
| Csv.RowRoundTrip | src/common.rs:36-46 | A written u8 row line is non-empty and parses back to the row. |
| Csv.NumbersOfLines | src/common.rs:36-47 | Parsing the written lines gives each row followed by byte 10. |
| Csv.NumbersRoundTrip | src/common.rs:73-84 | Reading back written u8 rows gives each row followed by byte 10. |
| Pancurses.ColorPairBits | src/terminal.rs:560-572 | `COLOR_PAIR(n)` lies inside the `A_COLOR` bits. |
| Terminal.Cell.Set | src/terminal.rs:43-46 | After `set(r, c)` the Cell has row r and column c. |
| Terminal.NewCellAccessors | src/terminal.rs:13-35 | `Cell::new(r, c)` has `row_no` r, `col_no` c, `y` r and `x` c. |
| Terminal.TranslateKey | src/terminal.rs:362-375 | The result is `KeyEnter` exactly for `'\n'`, `'\r'` and `KeyEnter`. It is `None` exactly for no key or an unlisted key. |
| Terminal.TranslateRawKey | src/terminal.rs:362-375 | Every other key is passed through unchanged. |
| Terminal.CursorLevel | src/terminal.rs:284-289 | The level is 0 exactly for `None`, and otherwise 2. |
| Terminal.PairCode | src/terminal.rs:560-572 | `color_set` selects one of the codes 1, 2, 11, 12, 13, 14, 15. |
| Terminal.PairCodesDistinct | src/terminal.rs:428-446 | The pair codes are nonzero u8 values, and distinct pairs have distinct codes. |
| Terminal.ColourBits | src/terminal.rs:626 | `(ch & A_COLOR) >> 8` is a byte. |
| Terminal.DecodeColorPair | src/terminal.rs:625-648 | A non-`Default` result is the pair whose code is in the cell's colour bits. `Default` is returned exactly when the bits hold none of the six other codes. |
| Terminal.DecodeColorSet | src/terminal.rs:625-648 | Decoding a character whose colour bits hold the code that `color_set` selects gives the same pair, for all seven pairs. |
| Terminal.DecodeOtherCodes | src/terminal.rs:645-647 | Every code other than 2 and 11–15 decodes to `Default`. |
| Terminal.Utf8Width | src/terminal.rs:394 | A character takes 1 to 4 UTF-8 bytes, and exactly 1 when it is ASCII. |
| Terminal.Utf8LenBounds | src/terminal.rs:394 | `String::len` is at least the character count and at most four times it. It equals the character count exactly when the string is ASCII. |
| Terminal.GetNStr | src/terminal.rs:391-421 | The loop's final string is the edit rule applied to the keys, starting with the counter at the target's UTF-8 byte length. Each push or pop moves the counter by one. `None` means the keys ran out before Enter. |
| Terminal.EditStepCovers | src/terminal.rs:399-416 | Each key keeps the counter at or above the number of characters held. For an ASCII start, the counter keeps equal to it. |
| Terminal.EditLength | src/terminal.rs:399-416 | While the counter covers the length, the final length is at most the larger of the initial length and `max_len`. |
| Terminal.GetNStrLength | src/terminal.rs:391-421 | `getnstr` returns at most the larger of the target's character count and `max_len` characters. |
| Terminal.EditNoTruncation | src/terminal.rs:399-416 | With the counter at `max_len` or more and no Backspace, the string comes back unchanged. |
| Terminal.GetNStrNoTruncation | src/terminal.rs:391-421 | Contrary to the doc comment, a target of `max_len` characters or more is returned whole under Enter when no Backspace is typed. |
| Terminal.GetNStrCountsBytes | src/terminal.rs:394 | The counter starts at the byte length: target `"éé"` (two characters, four bytes) with `max_len` 3 takes no `'a'`. |
| Terminal.EditTruncated | src/terminal.rs:387-389 | The intended behaviour: the result has at most `max_len` characters, and it ends exactly when the edit ends. |
| Terminal.GetNStrTruncated | src/terminal.rs:391-421 | The corrected loop returns the truncated edit, which is at most `max_len` long. |
| Terminal.GetNStrKeepsLongTarget | src/terminal.rs:391-421 | With target `"abcde"`, `max_len` 3 and Enter, the code gives `"abcde"` where `"abc"` is documented. |
| Menus.Uint16 | src/MainMenu.cpp:189-193 | The `uint16_t` a key code is stored in is the code mod 2^16. It equals the code for codes in range. |
| MainMenus.MainIndex | src/MainMenu.cpp:100-104 | The line of a main option is in 0..3. |
| MainMenus.MainOptionAt | src/MainMenu.cpp:100-104 | The option at line i is the main option whose line is i. |
| MainMenus.Increment | src/MainMenu.cpp:14-31 | `++` is one line down, saturating at EXIT. Every option that is not a main option goes to EXIT. |
| MainMenus.Decrement | src/MainMenu.cpp:39-56 | `--` is one line up, saturating at NEW_GAME. Every option that is not a main option goes to NEW_GAME. |
| MainMenus.MainIndexInjective | src/MainMenu.cpp:100-104 | A main option is determined by its line. |
| MainMenus.IncrementDecrement | src/MainMenu.cpp:14-56 | `--(++o) == o` below EXIT and `++(--o) == o` above NEW_GAME. EXIT and NEW_GAME are fixed points. |
| MainMenus.RunEndsIffEnter | src/MainMenu.cpp:185-210 | The loop ends exactly when some key is KEY_ENTER. |
| MainMenus.RunSelectsMain | src/MainMenu.cpp:185-210 | The selection is always a main option. |
| MainMenus.RunIgnoresOtherKeys | src/MainMenu.cpp:194-204 | Without arrow keys the selection never changes. |
| MainMenus.WindowReq | src/MainMenu.cpp:143-148 | Lines are 3+29+3+3. Columns are 6+29+VD+IGS+6 when the uint8_t sum does not wrap. |
| MainMenus.WindowReqValues | src/MainMenu.cpp:143-164 | (38, 125) with the default spacing, and (38, 41) with both zeroed. |
| MainMenus.MainMenu.constructor | include/Menu.hpp:36-37 | The default spacing is 4 and 80, and `WINDOW_REQ` starts zeroed. |
| MainMenus.MainMenu.SetVerticalDivider | src/MainMenu.cpp:122-124 | Sets the divider and nothing else. |
| MainMenus.MainMenu.SetInGameMenuDisplaySpacing | src/MainMenu.cpp:133-135 | Sets the spacing and nothing else. |
| MainMenus.MainMenu.SetWindowReq | src/MainMenu.cpp:143-148 | `WINDOW_REQ` becomes the requirement for the current spacing, and the spacing is unchanged. |
| MainMenus.MainMenu.MenuWith | src/MainMenu.cpp:157-172 | Without the in-game menu both spacings become 0. Then `WINDOW_REQ` is set and the selection loop's result is returned. |
| MainMenus.MainMenu.Menu | src/MainMenu.cpp:174-211 | Starting at NEW_GAME over the keys, it returns the run's selection on KEY_ENTER, which is always a main option. |
| DifficultyMenus.Increment | src/DifficultyMenu.cpp:13-30 | `++` is the next harder level, saturating at EXPERT. The clue count never rises and no level lies between. |
| DifficultyMenus.Decrement | src/DifficultyMenu.cpp:38-55 | `--` is the next easier level, saturating at EASY. The clue count never falls and no level lies between. |
| DifficultyMenus.IncrementDecrement | src/DifficultyMenu.cpp:13-55 | `--` undoes `++` below EXPERT, and `++` undoes `--` above EASY. |
| DifficultyMenus.ClueCountInjective | include/misc.hpp:43 | A level is determined by its clue count. |
| DifficultyMenus.RunEndsIffEnter | src/DifficultyMenu.cpp:105-122 | The loop ends exactly when some key is KEY_ENTER. |
| DifficultyMenus.RunIgnoresOtherKeys | src/DifficultyMenu.cpp:105-122 | Without arrow keys the level stays where it is. |
| DifficultyMenus.DownPresses | src/DifficultyMenu.cpp:105-122 | k KEY_DOWN presses then KEY_ENTER choose the level k steps harder, capped at EXPERT. |
| DifficultyMenus.DifficultyMenu.constructor | include/DifficultyMenu.hpp:17-23 | The level starts at EASY. |
| DifficultyMenus.DifficultyMenu.Menu | src/DifficultyMenu.cpp:103-126 | The level is reset to EASY and then follows the keys. NONE is returned exactly when KEY_ENTER was pressed. |
| InGameMenus.Index | src/InGameMenu.cpp:12-15 | The line of an in-game option is in 0..2. |
| InGameMenus.Increment | src/InGameMenu.cpp:157-159 | `++` is one line down, saturating at SAVE_GAME, and NONE goes to SAVE_GAME. The result is never NONE. |
| InGameMenus.Decrement | src/InGameMenu.cpp:161-163 | `--` is one line up, saturating at RULES, and NONE goes to RULES. The result is never NONE. |
| InGameMenus.IncrementDecrement | src/InGameMenu.cpp:157-163 | `--` undoes `++` on RULES and MANUAL, and `++` undoes `--` on MANUAL and SAVE_GAME. |
| InGameMenus.ToLower | src/InGameMenu.cpp:149 | `tolower` on a key code: only `'A'..'Z'` change, by +32. |
| InGameMenus.MenuKeys | src/InGameMenu.cpp:149 | The keys that end the menu are exactly `'m'` and `'M'`. |
| InGameMenus.RunProperties | src/InGameMenu.cpp:124-149 | The loop ends exactly when some key is `'m'`/`'M'`. Only the rules and manual pages are ever shown. |
| InGameMenus.Menu | src/InGameMenu.cpp:120-155 | It starts at RULES, shows the pages the keys select, and returns NONE exactly when the menu key was pressed. |
| InGameMenus.FindSpace | src/InGameMenu.cpp:99 | `find(' ')`: the first space, or the length when there is none. |
| InGameMenus.Limit | src/InGameMenu.cpp:107 | The line limit is `IN_GAME_MENU_DISPLAY_SPACING - 3` as a `size_t`, which wraps for spacing below 3. |
| InGameMenus.ReaderConcat | src/InGameMenu.cpp:95-118 | The emitted lines, followed by the text still pending, concatenate to the input. |
| InGameMenus.ReaderFullLines | src/InGameMenu.cpp:107-115 | Every line emitted by the "line full" branch is full: adding the next word would pass the limit. |
| InGameMenus.ReaderPending | src/InGameMenu.cpp:104-117 | Text is left unprinted exactly when the input ends with a space. |
| InGameMenus.ScreenReaderDropsTrailingText | src/InGameMenu.cpp:104-117 | For input ending in a space, the printed lines are strictly shorter than the input. This is the code as written. |
| InGameMenus.ScreenReaderPrintsNothingForOneWord | src/InGameMenu.cpp:104-117 | `"a "` with the default spacing prints nothing. |
| InGameMenus.WrappedLines | src/InGameMenu.cpp:95-118 | The corrected wrap: the lines concatenate to the input, and every line but the last is full. |
| InGameMenus.ConcatSnoc | src/InGameMenu.cpp:104-117 | Emitting one more line appends it to the concatenation. |
| InGameMenus.Printed | src/InGameMenu.cpp:104-113 | Line k is printed at screen row `Y_EDGE + IN_GAME_MENU_TITLE_SPACING + (display_offset + k) mod 256` (the title spacing is 1), one row per line. |
| InGameMenus.PrintedSnoc | src/InGameMenu.cpp:104-113 | Printing one more line adds one row, and the offset grows by one. |
| InGameMenus.ScreenReader | src/InGameMenu.cpp:95-118 | The rows printed are exactly the wrapped lines the code emits. `display_offset` grows by exactly the number of lines printed, mod 256. |
| InGameMenus.ReaderLoop | src/InGameMenu.cpp:104-117 | The loop of `screen_reader`, plus the text still pending when it ends. |
| InGameMenus.ScreenReaderFlushed | src/InGameMenu.cpp:95-118 | The corrected `screen_reader` prints every line of the full wrap, and the offset grows by that number of lines. |
| RustMenus.Index | src/menu.rs:57-71 | The position of a variant in declaration order, in 0..3. |
| RustMenus.Range | src/menu.rs:79-81 | `0..n` as a sequence. |
| RustMenus.Zip | src/menu.rs:79-81 | `zip` pairs the i-th elements, up to the shorter length. |
| RustMenus.Enumerate | src/menu.rs:79-81 | Four pairs, the i-th pairing index i with the i-th variant. |
| RustMenus.EnumerateListsEachOnce | src/menu.rs:79-81 | Each variant is listed once, with its own index. |
| RustMenus.Up | src/menu.rs:195-201 | Up/`'w'` is one index up, saturating at NEW_GAME. |
| RustMenus.Down | src/menu.rs:202-208 | Down/`'s'` is one index down, saturating at EXIT. |
| RustMenus.IndexInjective | src/menu.rs:57-71 | A variant is determined by its index. |
| RustMenus.UpDown | src/menu.rs:194-211 | Up has its fixed point exactly at NEW_GAME, and Down exactly at EXIT. They invert each other elsewhere. |
| RustMenus.AsOptions | src/menu.rs:57-71 | The C++ main option with the same line, for each Rust variant. |
| RustMenus.AgreesWithMainMenu | src/menu.rs:194-211 | Up is C++ `--` and Down is C++ `++` on the same options. |
| RustMenus.RunEndsIffEnter | src/menu.rs:185-216 | The loop ends exactly when some input is KEY_ENTER. |
| RustMenus.RunIgnoresOtherKeys | src/menu.rs:209-211 | Without the arrow and letter keys the selection never changes. |
| RustMenus.DownReachesExit | src/menu.rs:202-208 | Enough Down presses (at least the lines left below the selection), then Enter, select EXIT from any option. |
| RustMenus.DisplayGlobals.constructor | src/terminal.rs:78-90 | The statics start at `VERTICAL_DIVIDER` 4, `IN_GAME_MENU_DISPLAY_SPACING` 80 and `WINDOW_REQ` (0, 0). |
| RustMenus.DisplayGlobals.SetVerticalDivider | src/terminal.rs:116-121 | Sets the divider and nothing else. |
| RustMenus.DisplayGlobals.SetInGameMenuDisplaySpacing | src/terminal.rs:123-128 | Sets the spacing and nothing else. |
| RustMenus.WindowReq | src/menu.rs:254-259 | The requirement exists exactly when no u8 sum overflows, and it is then (TOP_PADDING+29+RESULT_MSG_SPACE+BOTTOM_PADDING, LEFT_PADDING+29+VD+IGS+RIGHT_PADDING). |
| RustMenus.WindowReqValues | src/menu.rs:229-259 | A `MainMenu::new`, whose padding mirrors the top and left padding and which keeps 3 lines for the result message, needs (38, 125) with the in-game menu and (38, 41) without. |
| RustMenus.SetWindowReq | src/menu.rs:254-259 | `WINDOW_REQ` becomes the requirement, and the spacing is unchanged. |
| RustMenus.Menu | src/menu.rs:167-218 | The spacing is zeroed when the in-game menu is off, `WINDOW_REQ` is set, and the option selected on KEY_ENTER is returned. |

## Left out

- Curses rendering and every decision that reads the screen are not modelled, because they depend on terminal state rather than on the program's values. This covers all `display_menu` functions, `display_rules`/`display_manual`, `Sudoku::printw`/`move`/the cursor logic, the terminal window wrappers and the resize loop. The displayed side of `screen_reader` is modelled only as the list of (row, line) pairs it would print.
- Randomness is an input. `mt19937`, `uniform_int_distribution` and `std::shuffle` are library behaviour, so the three digit shuffles and the position order are parameters. The time-based seed is not modelled.
- File and process I/O are left out: `save_game`, `increment_completed_games`, the directory handling and the file reads and writes of `csv`. Only the text transformations of `csv::read` and `csv::write` are modelled, and a file's contents are a string of single-byte characters. The printing and the `process::exit(1)` at the end of `csv::read` mean it never returns `Ok`; they are left out.
- Panics through `expect`, and the u8 overflow panics of the Rust code, are the `None` of an `Option`.
- Signals, timeouts and sleeps are left out: the SIGINT handlers, `napms`, `sleep_for` and `timeout`. So are all `#if DEBUG` code and `Grid::printw`/`mvprintw`.
- The stale `Matrix_9x9`/`Matrix_3x3`/`Box`/`Row`/`Column` files, `src/sudoku.cpp`, `src/main.cpp`, `Menu.cpp`'s superseded members and `SavedGameMenu` are not modelled. The Row, Column and Box types of the engine are the `Container` class, as the Container typedefs make them.
- The Rust `Grid` is a unit-struct placeholder, so the Rust `Sudoku::new` keeps no grid state.
- The Rust `MenuOption`/`SavedGameMenuOption` wrappers are not modelled, and the Rust menu returns the selected `MainMenuOption` directly.
- `menu.rs` imports names that `terminal.rs` does not define: `set_VERTICAL_DIVIDER` and friends, where `terminal.rs` defines `set_vertical_divider`, and `KEY_ENTER`. The model follows the logic, not the build. The Rust Enter key code is a parameter of `RustMenus.Menu` because no file defines it.
- Terminal.Cell.Set: `Cell::set` mutates a `Copy` value in place. Here it is a function returning the updated Cell, which is the same thing for a value type.
- `chtype` is a 32-bit vector, and `A_COLOR` is taken to be ncurses' `0xFF00`, because `pancurses` does not define it in these files.
- The C++ `igm_options` enum is not in these files. Its values RULES, MANUAL, SAVE_GAME and NONE are taken from their uses in `InGameMenu.cpp`.
- InGameMenus.ScreenReader: requires that every word plus its space fits on an empty line, because otherwise the C++ loop never ends. The same precondition is on `ReaderLoop` and `ScreenReaderFlushed`.
- RustMenus.Menu: requires that the window requirement fits in u8, which holds for the two spacings the game uses. Otherwise the Rust code panics (debug) or wraps (release).
- RustMenus.SetWindowReq: requires the same, for the same reason.
- The C++ `DifficultyMenu` leaves `diff` uninitialised until `menu()` sets it. Here the constructor sets EASY, which `menu()` sets first anyway.
- The C++ default `Grid` constructor leaves `known_positions` uninitialised. Here the flags start out false, and both constructors then clear them through `init_known_positions`.
- Grids.Grid.Solve: states success only as `found ==> …`. The source promises that the search always succeeds from the diagonal-box seed (Grid.cpp:203-206), but proving that every such seed extends to a solution is beyond this model. The model proves soundness and exact undo. Recursion depth is bounded by the 54 (box, value) steps.
- Grids.Grid.GenerateSolvedPuzzle: carries the same `found ==> …` gap, inherited from `solve`.
- Grids.Grid.FromDifficulty: carries the same `found ==> …` gap, inherited from `generate_solved_puzzle`.
- Line 420 of `Grid.cpp` holds a garbled index token, which is read as `known_positions[i]`.

## Findings

| source | as written | input that shows it | evidently intended | confidence | as-written member | corrected member |
|---|---|---|---|---|---|---|
| src/Grid.cpp:254-264 | `positions[0]` is read before it is written; the candidate cells are offsets from whatever it holds | `positions[0]` holding 1: box 2's third candidate is cell 9, which lies in box 0 | start at 0, so the candidates are the nine cells of the box | not executed | Grids.UninitialisedStartMisplaces | Grids.BoxPositions |
| src/InGameMenu.cpp:104-117 | the loop prints a line only when the next word would overflow it, and nothing prints what is left in `display_str` after the loop | `"a "` with spacing 80 prints nothing | print the pending line after the loop | not executed | InGameMenus.ScreenReaderDropsTrailingText | InGameMenus.ScreenReaderFlushed |
| src/terminal.rs:391-421 | `getnstr` copies the initial target unaltered and only limits appending, so a longer target is returned whole | target `"abcde"`, `max_len` 3, Enter returns `"abcde"` | truncate the result to `max_len` characters, as the doc comment says | not executed | Terminal.GetNStrKeepsLongTarget | Terminal.GetNStrTruncated |
